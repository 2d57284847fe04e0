/** The trip timetable (the "schedule" sheet): one row per trip of a bus position. */
module Schedules {
  import opened Wrappers
  import opened Text
  import opened Formats
  import opened Terminals
  import opened Rows

  /** One timetable row: which position runs the trip, between which terminals
      and at what times. `colorChanged` is when boarding opens. */
  datatype Schedule = Schedule(
    position: string,
    start: Terminal,
    departure: Time,
    colorChanged: Time,
    arrival: Time,
    destination: Terminal,
    direction: Terminal,
    icon: string)

  /** `Direction::from_str`: the second whitespace-separated word names a terminal
      (the cell reads like "To Rawai"). */
  function ParseDirection(s: string): (r: Result<Terminal>)
    ensures |Tokens(s)| < 2 ==> r == Err(MissingStopName)
    ensures |Tokens(s)| >= 2 ==> r == Terminals.Parse(Tokens(s)[1])
  {
    var word :- OkOr(Nth(Tokens(s), 1), MissingStopName);
    Terminals.Parse(word)
  }

  /** A cell reading "<word> <terminal keyword>" names that terminal. */
  lemma ParseDirectionKeyword(w: string, t: Terminal)
    requires IsWord(w)
    ensures ParseDirection(w + " " + Keyword(t)) == Ok(t)
  {
    var k := Keyword(t);
    assert IsWord(k);
    TokensOfWord(k, "");
    assert Tokens("") == [];
    assert k + "" == k;
    TokensSkipSpace(" ", k);
    assert w + " " + k == w + (" " + k);
    TokensOfWord(w, " " + k);
  }

  const Midnight: string := "12:00:00 AM"
  const LastSecondText: string := "23:59:59 PM"

  /** `SmartBusTime::from_str`: midnight is first rewritten to the last second of
      the day, then the first word is read as "%T"; whatever follows it, such as
      an AM/PM marker, is ignored. */
  function ParseTime(f: Parsers, s: string): (r: Result<Time>)
    ensures var words := Tokens(Replace(s, Midnight, LastSecondText));
            && (|words| == 0 ==> r == Err(MissingInput))
            && (|words| > 0 ==> r == OkOr(f.hms(words[0]), BadTime(words[0])))
  {
    var words := Tokens(Replace(s, Midnight, LastSecondText));
    var word :- OkOr(Nth(words, 0), MissingInput);
    OkOr(f.hms(word), BadTime(word))
  }

  /** Replacing a pattern that does not occur leaves the text alone. */
  lemma ReplaceAbsent(s: string, from: string, to: string)
    requires |from| > 0
    requires !Contains(s, from)
    ensures Replace(s, from, to) == s
  {
    SplitSingle(s, from);
  }

  /** The midnight cell reads as 23:59:59. */
  lemma MidnightIsLastSecond(f: Parsers)
    ensures ParseTime(f, Midnight) == OkOr(f.hms("23:59:59"), BadTime("23:59:59"))
  {
    assert Midnight == "" + Midnight + "";
    SplitSecondPiece("", Midnight, "");
    assert Replace(Midnight, Midnight, LastSecondText) == LastSecondText;
    assert LastSecondText == "23:59:59" + " PM";
    assert IsWord("PM");
    TokensOfWord("PM", "");
    assert "PM" + "" == "PM";
    TokensSkipSpace(" ", "PM");
    TokensOfWord("23:59:59", " PM");
  }

  /** A word containing `p` makes any text that starts with it contain `p`. */
  lemma ContainsExtends(w: string, rest: string, p: string)
    requires Contains(w, p)
    ensures Contains(w + rest, p)
  {
    var i :| 0 <= i <= |w| && OccursAt(w, p, i);
    assert OccursAt(w + rest, p, i);
  }

  /** Only the first word counts: a trailing marker or anything else after the
      first space is discarded (so long as the text is not the midnight literal). */
  lemma ParseTimeFirstWord(f: Parsers, w: string, rest: string)
    requires IsWord(w)
    requires |rest| == 0 || IsAsciiSpace(rest[0])
    requires !Contains(w + rest, Midnight)
    ensures ParseTime(f, w + rest) == ParseTime(f, w)
  {
    if Contains(w, Midnight) {
      ContainsExtends(w, rest, Midnight);
    }
    ReplaceAbsent(w + rest, Midnight, LastSecondText);
    ReplaceAbsent(w, Midnight, LastSecondText);
    TokensOfWord(w, rest);
    TokensOfWord(w, "");
    assert w + "" == w;
  }

  /** AM and PM read the same: the marker never reaches the time parser. */
  lemma MarkerDiscarded(f: Parsers, w: string)
    requires IsWord(w)
    requires !Contains(w + " AM", Midnight)
    ensures ParseTime(f, w + " AM") == ParseTime(f, w + " PM")
  {
    ParseTimeFirstWord(f, w, " AM");
    var s := w + " PM";
    forall i | 0 <= i <= |s| ensures !OccursAt(s, Midnight, i) {
      if i + |Midnight| <= |s| {
        if i + 8 < |w| {
          assert s[i + 8] == w[i + 8];
          assert s[i + 8] != Midnight[8];
        } else {
          assert s[i + 9] != Midnight[9];
        }
      }
    }
    ParseTimeFirstWord(f, w, " PM");
  }

  /** Empty or blank text is "missing input". */
  lemma BlankTimeMissing(f: Parsers, s: string)
    requires AllAsciiSpace(s)
    ensures ParseTime(f, s) == Err(MissingInput)
  {
    forall i | 0 <= i <= |s| ensures !OccursAt(s, Midnight, i) {
      if i + |Midnight| <= |s| {
        assert s[i] != Midnight[0];
      }
    }
    ReplaceAbsent(s, Midnight, LastSecondText);
  }

  /** The three time cells (departure, boarding, arrival), read in that order
      by `read`. */
  function DecodeTimes(read: string -> Result<Time>, cells: seq<Option<string>>): (r: Result<(Time, Time, Time)>)
    requires |cells| == 8
    ensures r.Ok? <==> (forall i :: 2 <= i <= 4 ==> cells[i].Some?)
                       && read(cells[2].value).Ok? && read(cells[3].value).Ok? && read(cells[4].value).Ok?
    ensures r.Ok? ==> && Ok(r.value.0) == read(cells[2].value)
                      && Ok(r.value.1) == read(cells[3].value)
                      && Ok(r.value.2) == read(cells[4].value)
  {
    var departureText :- Cell(cells, 2);
    var departure :- read(departureText);
    var colorChangedText :- Cell(cells, 3);
    var colorChanged :- read(colorChangedText);
    var arrivalText :- Cell(cells, 4);
    var arrival :- read(arrivalText);
    Ok((departure, colorChanged, arrival))
  }

  /** The row conditions under which `DecodeWith` succeeds, read column by column. */
  predicate AcceptedWith(read: string -> Result<Time>, v: Value) {
    && v.Array? && |v.cells| == 8
    && (forall i :: 0 <= i < 8 ==> v.cells[i].Some?)
    && Terminals.Parse(v.cells[1].value).Ok?
    && read(v.cells[2].value).Ok?
    && read(v.cells[3].value).Ok?
    && read(v.cells[4].value).Ok?
    && Terminals.Parse(v.cells[5].value).Ok?
    && ParseDirection(v.cells[6].value).Ok?
  }

  /** A timetable row of exactly eight string cells, read as position, start,
      departure, boarding time, arrival, destination, direction and icon, with
      `read` for the three time cells. */
  function DecodeWith(read: string -> Result<Time>, v: Value): (r: Result<Schedule>)
    ensures v.Scalar? ==> r == Err(ExpectedArray)
    ensures v.Array? && |v.cells| != 8 ==> r == Err(WrongArity(8, |v.cells|))
    ensures r.Ok? <==> AcceptedWith(read, v)
    ensures r.Ok? ==>
              && r.value.position == v.cells[0].value
              && Ok(r.value.start) == Terminals.Parse(v.cells[1].value)
              && Ok(r.value.departure) == read(v.cells[2].value)
              && Ok(r.value.colorChanged) == read(v.cells[3].value)
              && Ok(r.value.arrival) == read(v.cells[4].value)
              && Ok(r.value.destination) == Terminals.Parse(v.cells[5].value)
              && Ok(r.value.direction) == ParseDirection(v.cells[6].value)
              && r.value.icon == v.cells[7].value
  {
    var cells :- Cells(v, 8);
    var position :- Cell(cells, 0);
    var startText :- Cell(cells, 1);
    var start :- Terminals.Parse(startText);
    var times :- DecodeTimes(read, cells);
    var destinationText :- Cell(cells, 5);
    var destination :- Terminals.Parse(destinationText);
    var directionText :- Cell(cells, 6);
    var direction :- ParseDirection(directionText);
    var icon :- Cell(cells, 7);
    Ok(Schedule(position, start, times.0, times.1, times.2, destination, direction, icon))
  }

  /** Two time readers that agree on a row's time cells decode it alike. */
  lemma DecodeWithReaders(read1: string -> Result<Time>, read2: string -> Result<Time>, v: Value)
    requires v.Array? && |v.cells| == 8
    requires forall i :: 2 <= i <= 4 && v.cells[i].Some? ==> read1(v.cells[i].value) == read2(v.cells[i].value)
    ensures DecodeWith(read1, v) == DecodeWith(read2, v)
  {
    assert DecodeTimes(read1, v.cells) == DecodeTimes(read2, v.cells);
  }

  /** The row conditions under which `Decode` succeeds, read column by column. */
  predicate Accepted(f: Parsers, v: Value) {
    && v.Array? && |v.cells| == 8
    && (forall i :: 0 <= i < 8 ==> v.cells[i].Some?)
    && Terminals.Parse(v.cells[1].value).Ok?
    && ParseTime(f, v.cells[2].value).Ok?
    && ParseTime(f, v.cells[3].value).Ok?
    && ParseTime(f, v.cells[4].value).Ok?
    && Terminals.Parse(v.cells[5].value).Ok?
    && ParseDirection(v.cells[6].value).Ok?
  }

  /** `Schedule::try_from`: the timetable row with `SmartBusTime` for its three
      time cells. */
  function Decode(f: Parsers, v: Value): (r: Result<Schedule>)
    ensures v.Scalar? ==> r == Err(ExpectedArray)
    ensures v.Array? && |v.cells| != 8 ==> r == Err(WrongArity(8, |v.cells|))
    ensures r.Ok? <==> Accepted(f, v)
    ensures r.Ok? ==>
              && r.value.position == v.cells[0].value
              && Ok(r.value.start) == Terminals.Parse(v.cells[1].value)
              && Ok(r.value.departure) == ParseTime(f, v.cells[2].value)
              && Ok(r.value.colorChanged) == ParseTime(f, v.cells[3].value)
              && Ok(r.value.arrival) == ParseTime(f, v.cells[4].value)
              && Ok(r.value.destination) == Terminals.Parse(v.cells[5].value)
              && Ok(r.value.direction) == ParseDirection(v.cells[6].value)
              && r.value.icon == v.cells[7].value
  {
    DecodeWith(s => ParseTime(f, s), v)
  }
}
