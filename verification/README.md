# Phuket Smart Bus: ride and stop matching, modelled in Dafny

The Phuket Smart Bus back end tells which trip a bus is running and between
which two stops of its route it is. It reads three spreadsheet tables:

- the trip timetable (`Schedule`);
- the stop list (`Stop`);
- the fleet roster (`Bus`).

From these it builds three lookups:

- a per-direction route index keyed by latitude (`RouteService`);
- a per-position index of ride windows in time (`RideService`);
- a plate-to-position roster (`BusService`).

The repository also keeps an older revision of the same logic: `Routes`,
`Rides`, `BusOperation`, `BusStop` and the older `Bus` decoder. Those files
are no longer listed in `src/domain.rs`'s module list, so they are not
compiled. They are modelled here as they are written, and each is related to
its current counterpart by a lemma. One part of `Routes` is still live: the
`impl Terminal` block with `stop_name` and `stop` (src/domain/routes.rs:192-208)
is what `RouteService::new` calls (src/services/route_service.rs:24), and
`Terminals.StopName` and `TerminalStops` model that block.

The model is pure and functional:

- A spreadsheet row is a `Rows.Value`: an array of cells, where each cell is
  `Some` text or a non-string value.
- Every row decoder returns a `Result` whose error says why the row was refused.
- Times are seconds since midnight.
- A latitude is an integer key.
- The clock, date and floating-point text parsers are the function-valued
  fields of `Formats.Parsers`, passed in by the caller.
- Panics become preconditions. These are the `unreachable!` arms, the
  `unwrap` of a missing terminal stop, and the `&time[0..4]` byte slice.

Modules follow the program's structure:

| module | file | models |
|---|---|---|
| `Terminals` | terminal.dfy | `Terminal` and its parser; the stop names |
| `TerminalStops` | terminal_stop.dfy | `Terminal::stop` |
| `Directions` | direction.dfy | `RouteDirection` and its two `From` impls |
| `Rides` | ride.dfy | `Ride`, `From<Schedule>`, `Ord`/`PartialOrd`, `direction` |
| `Sorting` | sorting.dfy | `sorted_by_key` (stable sort) |
| `RouteService` | route_service.dfy | `RouteService::new`, `locate` |
| `RideService` | ride_service.dfy | `RideService::new`, `get` (also the older `Rides`) |
| `BusService` | bus_service.dfy | `BusService::new`, `operate_position` |
| `Rows`, `Sheets` | rows.dfy, sheets.dfy | `parse_list` and the older all-or-nothing policy |
| `Schedules`, `Stops`, `Buses` | schedule.dfy, stops.dfy, buses.dfy | the current row decoders |
| `LegacyRoutes` | legacy_routes.dfy | older `Routes::new`, `locate` |
| `LegacyRows` | legacy_rows.dfy | older `parse_bus_operations`, `parse_bus_stops`, `parse_buses` |
| `Text`, `Wrappers`, `Formats` | text.dfy, wrappers.dfy, formats.dfy | the string primitives of Rust's `str`, and the result types |

## Model

| member | source | states |
|---|---|---|
| Terminals.Parse | src/domain/terminal.rs:16-24 | Exactly "Airport", "Rawai", "Kata" and "Patong" parse, each to the variant it spells. Any other text is `UnknownTerminal`. |
| Terminals.ParseKeyword | src/domain/terminal.rs:16-24 | Round trip: parsing a terminal's keyword gives that terminal back. |
| Terminals.ParseInjective | src/domain/terminal.rs:17-21 | Two texts that parse to the same terminal are equal. |
| Terminals.ParseExactlyKeyword | src/domain/terminal.rs:17-21 | Every terminal is reached from exactly one spelling. |
| Terminals.ParseRejectsVariants | src/domain/terminal.rs:22 | Case variants, padded text and the empty text are errors. |
| Terminals.StopName | src/domain/routes.rs:192-200 | Each terminal's stop name is non-empty. |
| Terminals.StopNameInjective | src/domain/routes.rs:193-200 | Different terminals have different stop names. |
| TerminalStops.FirstNamed | src/domain/routes.rs:203-205 | The index of the first stop with the given name: nothing before it has that name. |
| TerminalStops.FindStop | src/domain/routes.rs:202-208 | `Terminal::stop` returns a stop of the list carrying the terminal's stop name. A list without one panics, so that case is a precondition. |
| TerminalStops.FindStopFirst | src/domain/routes.rs:202-208 | The stop found is the first of that name, whatever follows it. |
| TerminalStops.FindStopDistinct | src/domain/routes.rs:192-208 | Two different terminals never find the same stop. |
| Directions.FromPair | src/domain/route_direction.rs:20-28 | A start of Airport or a destination of Rawai gives South; otherwise North. The Kata/Patong-only pairs panic, so they are a precondition. |
| Directions.FromPairNorth | src/domain/route_direction.rs:23-24 | The pair gives North exactly when the first arm does not apply. |
| Directions.FromPairTies | src/domain/route_direction.rs:22-24 | Arm order decides ties: (Airport, Airport) and (Rawai, Rawai) are South; (Rawai, Airport) is North. |
| Directions.FromTerminal | src/domain/route_direction.rs:30-38 | Airport gives North and Rawai gives South; other terminals panic, so they are a precondition. |
| Directions.PairAgreesWithDestination | src/domain/route_direction.rs:20-38 | For a trip with start different from its destination, and destination Airport or Rawai, the pair mapping equals the single-terminal mapping of the destination. |
| Directions.PairDisagreesOnAirportLoop | src/domain/route_direction.rs:20-38 | The agreement fails on (Airport, Airport). |
| Rides.FromSchedule | src/domain/ride.rs:37-48 | The ride copies position, start, destination, departure and arrival. Its window opens at the colour-change time, not at departure. |
| Rides.Direction | src/domain/ride.rs:31-35 | A ride's direction is the pair mapping of its start and stop. |
| Rides.CompareStrings | src/domain/ride.rs:17-24 | Lexicographic string order answers Equal exactly for equal strings. |
| Rides.CompareTimes | src/domain/ride.rs:17-24 | Time comparison agrees with `<` and `==`. |
| Rides.Compare | src/domain/ride.rs:17-24 | The order is by name, then by departure. It answers Equal exactly when name and departure agree. |
| Rides.PartialCompare | src/domain/ride.rs:25-29 | `partial_cmp` is always `Some` of `cmp`. |
| Rides.CompareStringsReverse | src/domain/ride.rs:17-24 | Swapping two strings reverses their order. |
| Rides.CompareStringsTransitive | src/domain/ride.rs:17-24 | String order is transitive. |
| Rides.CompareReflexive | src/domain/ride.rs:17-24 | Every ride compares Equal to itself. |
| Rides.CompareAntisymmetric | src/domain/ride.rs:17-24 | Swapping the arguments reverses the ordering. |
| Rides.CompareTransitive | src/domain/ride.rs:17-24 | Less is transitive; Equal is an equivalence that Less respects. |
| Rides.CompareIgnoresOtherFields | src/domain/ride.rs:7-24 | Start, stop, loading and arrival never influence the order. |
| Rides.EqualWithoutIdentity | src/domain/ride.rs:7-24 | Two rides that differ in start, stop, loading and arrival still compare Equal. |
| Sorting.InsertContents | src/services/ride_service.rs:24 | One insertion step adds exactly one element. |
| Sorting.InsertSorted | src/services/ride_service.rs:24 | Inserting into a key-sorted sequence keeps it sorted. |
| Sorting.SortBy | src/services/ride_service.rs:24 | `sorted_by_key`. Its meaning is given by SortByCorrect, SortByStable and SortBySorted. |
| Sorting.SortByCorrect | src/services/ride_service.rs:24 | `sorted_by_key` returns a permutation of its input in non-decreasing key order. |
| Sorting.InsertWithKey | src/services/ride_service.rs:24 | Insertion places the new element after every earlier element with the same key. |
| Sorting.SortByStable | src/services/ride_service.rs:24 | Stability: the elements with any one key keep their input order. |
| Sorting.SortBySorted | src/services/route_service.rs:23 | Input that is already in key order comes back unchanged. |
| RouteService.Lookup | src/services/route_service.rs:12-13 | A map lookup finds an entry filed under the key, and finds nothing exactly when no entry has the key. |
| RouteService.LastWithKey | src/services/route_service.rs:25-26 | The reference answer for a collected map: the last entry with the key, or nothing when none has it. |
| RouteService.Put | src/services/route_service.rs:25-26 | `BTreeMap::insert`, filing a stop under its latitude. Its meaning is given by PutLookup, PutEntries and PutAscending. |
| RouteService.FromList | src/services/route_service.rs:25-26 | `collect` into a `BTreeMap`: the entries inserted in order. Its meaning is given by FromListLookup, FromListAscending and FromListEntries. |
| RouteService.PutLookup | src/services/route_service.rs:25-26 | After an insert, the new entry answers for its key and every other key answers as before. |
| RouteService.PutEntries | src/services/route_service.rs:25-26 | An insert adds nothing but the new entry. |
| RouteService.PutAscending | src/services/route_service.rs:25-26 | An insert keeps the keys strictly ascending. |
| RouteService.FromListAscending | src/services/route_service.rs:25-26 | A collected map has strictly ascending keys. |
| RouteService.FromListLookup | src/services/route_service.rs:23-26 | On equal latitudes the later insertion wins: each key answers with the last entry inserted under it. |
| RouteService.FromListEntries | src/services/route_service.rs:25-26 | A collected map holds only entries it was given. |
| RouteService.TaggedMembers | src/services/route_service.rs:21 | The filter keeps exactly the stops tagged with the terminal. |
| RouteService.Build | src/services/route_service.rs:18-27 | The `build` closure: tagged stops sorted by order, then the terminal's stop, collected by latitude. Its meaning is given by BuildEntries and TerminalStopPresent. |
| RouteService.New | src/services/route_service.rs:17-33 | Both maps are in strictly ascending latitude order. |
| RouteService.NewLookup | src/services/route_service.rs:17-33 | The north map answers a latitude with the last inserted Airport-route entry under it; the south map does the same for the Rawai route. |
| RouteService.TerminalStopPresent | src/services/route_service.rs:23-26 | The terminal's stop is inserted last, so it is always present at its own latitude. |
| RouteService.BuildEntries | src/services/route_service.rs:17-33 | Every entry of a direction's map comes from the stop list, and is tagged with that terminal or is the terminal's own stop. |
| RouteService.CountBelow | src/services/route_service.rs:42-50 | The split point of the map: every entry before it lies strictly below the query; the entry at it does not. |
| RouteService.Zip | src/services/route_service.rs:56 | `Option::zip`: a pair exactly when both sides are present, in argument order. |
| RouteService.Locate | src/services/route_service.rs:36-57 | `locate`, with the ranges' ends and the South swap. Its meaning is given by LocateNone, LocateBracket and ExactHit. |
| RouteService.LocateNone | src/services/route_service.rs:42-56 | `locate` answers None exactly when the map is empty, every key is at or above the query, or every key is below it. |
| RouteService.LocateBracket | src/services/route_service.rs:36-57 | Before the South swap, the first stop is the nearest strictly below the query and the second the nearest at or above it. So North gives `prev < q <= next` and South gives `next < q <= prev`. |
| RouteService.Bracket | src/services/route_service.rs:42-50 | In an ascending map, the entries either side of the split point are the greatest key below the query and the least key at or above it. |
| RouteService.ExactHit | src/services/route_service.rs:42-50 | A query at a stop's exact latitude puts that stop in the upper slot, never in both slots. |
| RouteService.FromListThree | src/services/route_service.rs:25-26 | A map of three distinct keys has the same order whatever order they are inserted in. |
| RouteService.IslandMaps | src/services/route_service.rs:17-33 | On a four-stop layout like the test data's, both maps run in latitude order: Rawai Beach, a Thalang stop, then the airport. The north map uses the northbound Thalang stop and the south map the southbound one. |
| RouteService.LocateTop | src/services/route_service.rs:42-54 | At the top stop's latitude, North answers (middle, top) and South answers the swapped pair. |
| RouteService.LocateAtAirport | src/services/route_service.rs:130-172 | At the airport's latitude, North answers (Thalang, airport) and South answers (airport, Thalang). |
| RideService.LastCovering | src/services/ride_service.rs:27-35 | The position of the last window holding the time: no later window holds it. |
| RideService.PointQuery | src/services/ride_service.rs:27-35 | A range-map query answers nothing exactly when no window holds the time. Otherwise it answers with the last inserted window holding it. |
| RideService.ForPosition | src/services/ride_service.rs:17-20 | A position's group holds exactly that position's timetable rows. |
| RideService.ToRides | src/services/ride_service.rs:22-25 | One ride per row, in the rows' order. |
| RideService.Windows | src/services/ride_service.rs:22-27 | The windows of one position in insertion order: its rows sorted by departure, then converted. Its meaning is given by InsertionOrder and LatestWindow. |
| RideService.Build | src/services/ride_service.rs:14-33 | There is one interval map per position that occurs, and each holds that position's rows sorted by departure. |
| RideService.Get | src/services/ride_service.rs:34-36 | An unknown position gives nothing; a known one is answered by its own map. |
| RideService.UnknownPosition | src/services/ride_service.rs:34-36 | A position with no timetable row has no ride at any time. |
| RideService.GetSound | src/services/ride_service.rs:17-36 | A ride found for a position at time t has that name and a half-open window `loading <= t < arrival`. It comes from one of the position's rows. |
| RideService.GetComplete | src/services/ride_service.rs:17-36 | If some row of the position has a window holding t, a ride is found. |
| RideService.GetLatestDeparture | src/services/ride_service.rs:22-35 | Where windows overlap, the ride found departs no earlier than any row whose window holds t. |
| RideService.LatestWindow | src/services/ride_service.rs:22-27 | In departure-sorted windows, the window found departs no earlier than any window holding t. |
| RideService.InsertionOrder | src/services/ride_service.rs:22-24 | Rows are inserted in non-decreasing departure order, and rows with equal departure keep their input order. |
| RideService.ForPositionAll | src/services/ride_service.rs:17-20 | When every row belongs to the position, its group is the whole timetable. |
| RideService.PointQueryPair | src/services/ride_service.rs:27-35 | In a two-window map the second window takes precedence. |
| RideService.BackToBack | src/services/ride_service.rs:27-35 | Back-to-back trips: at the moment one window closes, the next has already opened. At the closing time of the last window, nothing is found. |
| RideService.AfternoonLookup | src/services/ride_service.rs:45-57 | At 14:00 a Bus6 trip boarding at 13:50 is found with name Bus6, and a Bus3 trip that ended at 11:10 is not. |
| BusService.LastWithPlate | src/services/bus_service.rs:15-18 | The reference answer: the last bus in the list with the plate, or nothing when no bus has it. |
| BusService.New | src/services/bus_service.rs:13-20 | The roster keys each bus by plate. On duplicate plates the later bus wins. |
| BusService.OperatePosition | src/services/bus_service.rs:22-26 | A known plate gives its bus's position; an unknown plate gives nothing rather than an error. |
| BusService.LookupLastListed | src/services/bus_service.rs:13-26 | Looking up a plate in a new roster gives the position of the last bus listed with it, and nothing when no bus has it. |
| BusService.AppendBus | src/services/bus_service.rs:13-26 | Appending a bus makes it the answer for its plate and leaves every other plate unchanged. |
| BusService.PlateExample | src/services/bus_service.rs:35-42 | Plate 10-1152, listed last as Bus4, maps to Bus4; an unlisted plate maps to nothing. |
| Rows.Cells | src/domain/schedule.rs:54-58 | A row is accepted for its cells exactly when it is an array of the expected length. A scalar is `ExpectedArray`; a wrong length is `WrongArity`. |
| Rows.Cell | src/domain/schedule.rs:60-65 | `get_str` returns a string cell's text; any other cell is `ExpectedStr` for that position. |
| Rows.KeepOk | src/domain.rs:77-78 | Every record kept is the decoding of some row. |
| Rows.ParseList | src/domain.rs:58-80 | `parse_list` fails exactly when the envelope does, with its error. A header-only sheet gives an empty list. Otherwise the records are exactly the rows after the header that decode (`KeepOk`), in input order. |
| Rows.FromLaterRow | src/domain.rs:76-78 | A kept record comes from a row after the header. |
| Rows.KeepOkAppend | src/domain.rs:74-79 | Dropping failures commutes with concatenation, so surviving rows keep their input order. |
| Rows.KeepOkSingle | src/domain.rs:77-78 | A single row survives exactly when it decodes. |
| Rows.DropFailedRow | src/domain.rs:77-78 | A failing row is dropped silently. The rows around it are kept, in order. |
| Rows.KeepOkLength | src/domain.rs:77-79 | Exactly the rows that decode survive. |
| Rows.HeaderIgnored | src/domain.rs:76 | The first row is never decoded: replacing it changes nothing. |
| Rows.HeaderOnly | src/domain.rs:76-79 | A sheet with only a header gives an empty list. |
| Rows.CollectAll | src/domain/bus_operate.rs:92-93 | All-or-nothing collection: Ok exactly when every row decodes, and then one record per row in order. Otherwise the error of the first failing row. |
| Rows.ParseAll | src/domain/bus_operate.rs:88-93 | The older sheet reader skips the header, and any failing row after it fails the sheet. On success every row after the header decodes to its record. |
| Rows.CollectAllAgrees | src/domain/bus_operate.rs:93 | Where all-or-nothing collection succeeds, it returns the same list as dropping failures. |
| Rows.PoliciesAgree | src/domain.rs:76-78 | Where the older policy reads a sheet, the current one reads the same list. Where only a row fails the older one, the current one still succeeds. |
| Sheets.ParseSchedules | src/domain.rs:58-80 | The timetable sheet: fails only with the envelope. Otherwise its records are exactly the rows after the header that its row decoder reads (`KeepOk`), in input order. |
| Sheets.ParseStops | src/domain.rs:58-80 | The stop sheet: fails only with the envelope. Otherwise its records are exactly the rows after the header that its row decoder reads (`KeepOk`), in input order. |
| Sheets.ParseBuses | src/domain.rs:58-80 | The roster sheet: fails only with the envelope. Otherwise its records are exactly the rows after the header that its row decoder reads (`KeepOk`), in input order. |
| Schedules.ParseDirection | src/domain/schedule.rs:30-36 | The second whitespace token names a terminal. Fewer than two tokens is `MissingStopName`. |
| Schedules.ParseDirectionKeyword | src/domain/schedule.rs:30-36 | A cell "<word> <keyword>" gives that terminal. |
| Schedules.ParseTime | src/domain/schedule.rs:86-93 | The first whitespace token, after the midnight rewrite, read as "%T". Blank text is `MissingInput`. |
| Schedules.MidnightIsLastSecond | src/domain/schedule.rs:87 | The midnight literal "12:00:00 AM" reads as 23:59:59. |
| Schedules.ParseTimeFirstWord | src/domain/schedule.rs:88-91 | Only the first token counts: anything after it is ignored. |
| Schedules.MarkerDiscarded | src/domain/schedule.rs:88-91 | "AM" and "PM" read the same. |
| Schedules.BlankTimeMissing | src/domain/schedule.rs:89-90 | Empty or whitespace-only time text is `MissingInput`. |
| Schedules.DecodeTimes | src/domain/schedule.rs:70-72 | Cells 2, 3 and 4 give departure, boarding and arrival, in that order. |
| Schedules.DecodeWithReaders | src/domain/schedule.rs:53-77 | A row's decoding depends on the time reader only through its three time cells. |
| Schedules.DecodeWith | src/domain/schedule.rs:53-77 | The eight-cell row decoder for any time reader. It succeeds exactly when every column reads, and places each cell in its field. |
| Schedules.Decode | src/domain/schedule.rs:53-77 | A scalar row or arity other than 8 is an error. Otherwise Ok exactly when every column reads. Cell 0 gives the position verbatim, cells 1 and 5 the terminals, cells 2–4 the times, cell 6 the direction and cell 7 the icon. |
| Stops.ParseDisplay | src/domain/stops.rs:31-41 | "on" gives true and "off" gives false; anything else is `UnknownDisplay`. |
| Stops.ParseRouteDirection | src/domain/stops.rs:46-56 | The piece after the first " --> " parsed as a terminal. A missing separator is `MissingRouteDirection`. |
| Stops.RouteDirectionOfArrow | src/domain/stops.rs:46-56 | "<origin> --> <keyword>" gives that terminal. |
| Stops.ParseDescription | src/domain/stops.rs:80-86 | None exactly when " Bus Stop " does not occur. Otherwise it is the text after the first occurrence, up to the next occurrence, or to the end when there is none. It is never an error. |
| Stops.DescriptionAfterMarker | src/domain/stops.rs:84 | With a single marker, the description is everything after it. |
| Stops.Normalise | src/domain/stops.rs:65-69 | The normalised timetable text holds no comma. |
| Stops.Words | src/domain/stops.rs:65-70 | The words of the timetable cell are non-empty, space-free and comma-free. |
| Stops.WordsOfCleanText | src/domain/stops.rs:65-70 | The clean-up leaves text with no comma and no "AM"/"PM" unchanged, so its words are its ASCII-whitespace tokens. |
| Stops.Times | src/domain/stops.rs:70-73 | Each word's first four bytes are read as "%H:%M", in order. The first bad word fails the cell with its error, and every word before it reads. A word under four bytes panics, so that case is a precondition. |
| Stops.Clock | src/domain/stops.rs:71 | `&time[0..4]`: a prefix of the word exactly four UTF-8 bytes long. It is absent when no prefix is exactly four bytes long, which is the case where the slice panics. |
| Stops.AsciiWordsSafe | src/domain/stops.rs:71 | Words of at least four ASCII characters can always be sliced. |
| Stops.DecodeNames | src/domain/stops.rs:106-109 | Cell 0 is the order as a `usize`; the names are trimmed; cell 3 is the description. |
| Stops.DecodePlace | src/domain/stops.rs:110-115 | Cell 4 gives the route direction. Column 6 feeds the longitude and column 5 the latitude. |
| Stops.DecodeHead | src/domain/stops.rs:105-115 | Cells 0–6, with the trimmed names and the swapped coordinate columns. |
| Stops.DecodeTail | src/domain/stops.rs:117-122 | Icon, colour, image and map link are copied verbatim. A bad unique id becomes None. Display must read. |
| Stops.Decode | src/domain/stops.rs:88-125 | A scalar row or arity other than 14 is an error. Otherwise Ok exactly when every column reads, with each field from its cell. |
| Stops.UniqueIdNeverFails | src/domain/stops.rs:119 | The unique-id cell never decides whether a row decodes. |
| Stops.NamesTrimmed | src/domain/stops.rs:107-108 | A decoded stop's names carry no surrounding white space. |
| Buses.ParseStatus | src/domain/buses.rs:31-35 | Only the string "suspend" is a status; other text is `UnknownVariant`. Every non-string cell is `InvalidType` (see Left out). |
| Buses.ParseDirection | src/domain/buses.rs:37-43 | The string "0" gives A and "1" gives B; other text is `UnknownVariant`. Every non-string cell is `InvalidType` (see Left out). |
| Buses.Spare | src/domain/buses.rs:71-78 | Cells 7–14 must be text, and are copied in order. |
| Buses.Names | src/domain/buses.rs:65-67 | Plate, bus id and icon are copied verbatim. |
| Buses.Stamp | src/domain/buses.rs:79-80 | Cell 15 is read as "%d/%m/%Y" and cell 16 as "%r". |
| Buses.Decode | src/domain/buses.rs:48-83 | A scalar row or arity other than 17 is an error. Otherwise Ok exactly when every column reads. The number fits a `u8`; plate and position are copied verbatim. |
| Buses.NumberOverflow | src/domain/buses.rs:64 | A number above 255 fails the row. |
| Text.Nth | src/domain/schedule.rs:32 | `nth` gives the element at a position, or nothing past the end. |
| Text.IsAsciiSpace | src/domain/schedule.rs:31 | The ASCII white space that `split_ascii_whitespace` splits on: space, tab, line feed, form feed and carriage return. |
| Text.Tokens | src/domain/schedule.rs:31 | `split_ascii_whitespace` yields non-empty words free of ASCII space. There are none exactly when the text is blank. |
| Text.TokensCoverText | src/domain/schedule.rs:88 | The tokens, joined, are the text with its spaces removed. |
| Text.TokensOfWord | src/domain/schedule.rs:88-89 | A word followed by a space, or by nothing, is the first token. |
| Text.OccursAtChar | src/domain/stops.rs:65-69 | A one-character pattern, as in `replace(',', ":")`, occurs exactly where that character stands. |
| Text.IndexOf | src/domain/stops.rs:50 | The leftmost occurrence of the pattern, and none exactly when it does not occur. |
| Text.Split | src/domain/stops.rs:50 | `split` yields at least one piece. |
| Text.SplitFirst | src/domain/stops.rs:50 | `split` yields the whole text when the pattern does not occur. Otherwise it yields at least two pieces, the first being the text before the leftmost match. |
| Text.SplitUnfold | src/domain/stops.rs:50 | After the leftmost match, splitting continues on the rest of the text: the pieces are the text before the match, then the pieces of the rest. |
| Text.SplitSingle | src/domain/stops.rs:50-52 | A single piece comes back exactly when the pattern does not occur. |
| Text.SplitPiecesLackPattern | src/domain/stops.rs:84 | No piece of a split contains the pattern. |
| Text.JoinSplit | src/domain/stops.rs:50 | Round trip: joining the pieces with the pattern restores the text. |
| Text.Replace | src/domain/stops.rs:65-69 | `str::replace`: leaves a text without the pattern unchanged. ReplaceRemovesChar gives the comma-removal property. |
| Text.ReplaceRemovesChar | src/domain/stops.rs:69 | Replacing a character by text that lacks it leaves no copy of it. |
| Text.IsWhiteSpace | src/domain/stops.rs:107-108 | The Unicode White_Space set that `trim` removes. |
| Text.Trim | src/domain/stops.rs:107-108 | The trimmed text neither starts nor ends with white space. |
| Text.TrimPadded | src/domain/stops.rs:107-108 | Trimming removes exactly the white-space padding around the text. |
| Text.BytePrefix | src/domain/stops.rs:71 | `&t[0..n]`: the characters making up the first n UTF-8 bytes, or nothing when n falls inside a character. |
| Text.AsciiBytePrefix | src/domain/stops.rs:71 | On ASCII text a byte slice is a character slice. |
| Text.ParseUnsigned | src/domain/buses.rs:64 | Unsigned integer parsing: one optional '+', then digits whose value is at most the type's maximum. |
| Text.ParseDecimal | src/domain/stops.rs:106 | Round trip: the decimal rendering of any value in range parses back to it. |
| Text.ParsePlus | src/domain/stops.rs:106 | One leading '+' is accepted and ignored. |
| Wrappers.OkOr | src/domain/schedule.rs:90 | An optional value becomes Ok, or the given error when it is absent. |
| LegacyRoutes.New | src/domain/routes.rs:104-131 | One list per tag that occurs, filed under the terminal's direction. Each is the tag's stops sorted by order, with the terminal's stop appended. All four terminal stops must exist, and only Airport and Rawai tags may occur; otherwise it panics. |
| LegacyRoutes.RouteShape | src/domain/routes.rs:120-124 | A route list ends with the terminal's stop. Before it come stops tagged with that terminal, in route order. |
| LegacyRoutes.NewListShape | src/domain/routes.rs:115-128 | Each list of the older index is keyed by Airport or Rawai, has at least two stops, and has the route shape. |
| LegacyRoutes.Sign | src/domain/routes.rs:140-143 | The sign test counts a zero difference as +1. North is −1 exactly when the stop is below the position; South is −1 exactly when it is above. |
| LegacyRoutes.Straddles | src/domain/routes.rs:145-149 | The `find` predicate: two neighbours whose signs sum to zero. StraddleMeaning reads it as latitudes. |
| LegacyRoutes.FirstStraddle | src/domain/routes.rs:145-149 | The first pair of neighbouring stops whose signs cancel, or none, with no earlier pair cancelling. |
| LegacyRoutes.Locate | src/domain/routes.rs:134-158 | None exactly when the direction has no list or no neighbours straddle the position. Otherwise the first straddling pair in list order, unswapped. |
| LegacyRoutes.LocateMeaning | src/domain/routes.rs:139-157 | Read as latitudes, the answer has exactly one stop on the far side of the position. It is nothing exactly when no neighbouring pair straddles. |
| LegacyRoutes.AscendingScan | src/domain/routes.rs:145-149 | On a list climbing in latitude, the northbound scan finds the same pair as the current map bracket. |
| LegacyRows.ParseTime | src/domain/bus_operate.rs:129-139 | The older time reader: the first token read as "%T", with no midnight rewrite. Blank text is `MissingInput`. |
| LegacyRows.ParseTimeAgrees | src/domain/bus_operate.rs:132-138 | Away from the midnight literal, the older and current time readers agree. |
| LegacyRows.MidnightDiffers | src/domain/bus_operate.rs:132-138 | On the midnight literal, the older reader reads "12:00:00" rather than 23:59:59. |
| LegacyRows.DecodeOperation | src/domain/bus_operate.rs:96-124 | Eight string cells in the timetable's layout, each read into its field with the older time reader. A scalar row or arity other than 8 is an error. |
| LegacyRows.OperationAgrees | src/domain/bus_operate.rs:96-124 | A row with no midnight literal in its time cells decodes as the current timetable decoder does. |
| LegacyRows.ParseBusOperations | src/domain/bus_operate.rs:77-94 | Skips the header. A single bad row fails the batch; otherwise one record per row after the header, in order. |
| LegacyRows.BadOperationFailsSheet | src/domain/bus_operate.rs:91-93 | One bad row fails the sheet wherever it stands. |
| LegacyRows.AsTerminal | src/domain/bus_stop.rs:50-53 | The older stop direction stands for Airport or Rawai. |
| LegacyRows.ParseDirection | src/domain/bus_stop.rs:55-65 | Only "Airport" and "Rawai" are accepted; anything else is `UnknownDirection`. |
| LegacyRows.ParseRouteDirection | src/domain/bus_stop.rs:70-80 | The piece after the first " --> ", read as the older direction. A missing separator is an error. |
| LegacyRows.RouteDirectionNarrower | src/domain/bus_stop.rs:70-80 | The older route direction accepts exactly the current parser's Airport and Rawai answers, with the same terminal. |
| LegacyRows.DecodeNames | src/domain/bus_stop.rs:149-152 | Order, names and description, with the names not trimmed. |
| LegacyRows.DecodePlace | src/domain/bus_stop.rs:153-155 | Route direction, then column 5 as the longitude and column 6 as the latitude, unswapped. |
| LegacyRows.DecodeHead | src/domain/bus_stop.rs:148-155 | Cells 0–6, with names untrimmed and coordinates unswapped. |
| LegacyRows.DecodeStop | src/domain/bus_stop.rs:131-165 | Fourteen string cells. The timetable, description and display rules are the current ones. A scalar row or arity other than 14 is an error. |
| LegacyRows.SideTerminalRejected | src/domain/bus_stop.rs:58-78 | A row whose route points at Kata or Patong fails in the older decoder. |
| LegacyRows.StopRevisionsAgree | src/domain/bus_stop.rs:148-163 | Where both revisions accept a row, they agree on order, description, timetable and display. The current names are the older names trimmed. |
| LegacyRows.ParseBusStops | src/domain/bus_stop.rs:112-129 | Skips the header. A single bad row fails the batch; otherwise record i − 1 is the older decoding of row i. |
| LegacyRows.ParseBuses | src/domain/bus.rs:47-102 | Skips the header. A single bad row fails the batch; otherwise record i − 1 is the current `Bus::try_from` decoding of row i. |

## Left out

- Network fetching, endpoints and configuration are I/O and are not part of this model. This covers `fetch`, `fetch_bus_*`, `FetchService`, `ConfigService`, `Config` and `main.rs`.
- The serde envelope (`range`, `majorDimension`, `values`) is the `Result<seq<Value>>` a sheet reader receives. A JSON decoding failure is an `Err` there. Cells are `Some` text or non-string values.
- Coordinates are `f32`/`f64` in the source and integer keys here. The `Latitude` type (src/domain/coordinates.rs:48-49) shows only an epsilon `PartialEq`, with no `Ord`, although src/services/route_service.rs:12 keys a `BTreeMap` by it. So the total order on the integer key is an assumption of the model, not a translation. Epsilon equality, the `-0.0` and NaN cases of `signum`, and the distances `locate` returns (src/domain/routes.rs:152-153, src/lookup.rs) are not modelled.
- chrono's "%T", "%H:%M", "%d/%m/%Y" and "%r" parsers, and the `f32`/`f64` text parsers, are the fields of `Formats.Parsers`. No property of chrono's own leniency is assumed.
- rangemap is modelled as its observable contract: windows in insertion order, with a point query answered by the last inserted window covering the time. An empty window is a precondition (`WindowsNonEmpty`), because the crate's handling of it is not visible.
- RouteService.BuildEntries: the claim that Kata and Patong stops appear in neither map is stated as "tagged with the terminal, or the terminal's own stop". The appended terminal stop is found by name and may carry any tag, so the stronger claim does not hold in general.
- LegacyRoutes.Locate: the distance halves of each returned pair are dropped; only the two stops are modelled.
- RideService: the older `Rides` (src/domain/routes.rs:161-190) is the same code as `RideService` and is modelled by the same members. Likewise, the older `Ride` and `RouteDirection` (src/domain/routes.rs:10-95) are the same as src/domain/ride.rs and src/domain/route_direction.rs.
- LegacyRows.DecodeOperation: the older `TerminalStop` and `Direction` parsers (src/domain/bus_operate.rs:37-64) accept exactly what `Terminal::from_str` and the current `Direction` accept, so the model reuses those. A `BusOperation` is represented by the current `Schedule` record, which has the same fields.
- LegacyRows.ParseBuses: the older `Bus::try_from` (src/domain/bus.rs:64-103) differs from the current one only by a `dbg!`, so it is `Buses.Decode`.
- The older `Direction::deserialize` (src/domain/bus_operate.rs:66-75) is never called by the row decoders and is left out.
- Buses.ParseStatus, Buses.ParseDirection: serde's `from_value` also accepts the single-key object form of a unit variant, such as `{"suspend": null}` or `{"0": null}` (src/domain/buses.rs:68-69). A cell here is either text or a non-string value, so that object form is folded into `InvalidType` and the model does not accept it.
- Display impls, `println!` and `dbg!` are presentation only.
- Location deserialisation (src/domain/location.rs) belongs to the socket client, which is not part of this model.
