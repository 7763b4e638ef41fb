# 12306 ticket monitor — a Dafny model of its core

The monitor polls the 12306 railway ticket service for trains between two stations. It turns the
service's raw `|`-delimited records into ticket records, keeps the trains the operator asked for, and
decides which tickets have seats available. When some do, it builds an alert message, sounds an
alarm, shows a desktop notification where the platform has one, and asks the operator whether to go
on. This project models that core as pure Dafny functions and proves what the code promises about it.

- `wrappers.dfy` (`Wrappers`): `Option` and `Result`.
- `text.dfy` (`Text`): the Python string operations the code relies on, over `seq<char>`:
  - `str.split`, with its inverse `Join`;
  - `str.strip(chars)`;
  - substring containment;
  - ASCII `lower()`.
- `seqs.dfy` (`Seqs`): the order-preserving "append what you keep" loops, as `FilterMap` and `Filter`,
  with their selection, concatenation and counting lemmas.
- `tickets.dfy` (`Tickets`): the record parser with the 34-field minimum and the fixed columns. The
  ten-class seat map reads an empty field as `--`. The optional train-code filter is modelled too.
- `availability.dfy` (`Availability`): the availability evaluator, with its six default seat classes
  and the `--` / `无` sentinels.
- `stations.dfy` (`Stations`): the station directory. This covers parsing the remote station table
  and resolving a name through the cache file, then the remote table, then the 21-entry built-in
  table.
- `query.dfy` (`Query`): one ticket query.
  - The page strategy first: resolved codes, page fetch, login markers, extraction of
    `var CLeftTicketUrl = '...'`, then the named endpoint.
  - Otherwise the three API endpoints in turn.
  - Every network exchange becomes an `Outcome` value.
- `monitor.dfy` (`Monitor`): one polling cycle as a step function from a query result and the
  operator's answer to the cycle's events and the loop's state.
  - The loop is a fold of that step over a trace of polls.
  - The source has a `KeyError` for a listed seat class that a ticket lacks. Here it is the explicit
    state `Crashed(seat)`.
  - Worked examples on a concrete G103 record close the file.

Whatever the model does not see, and that changes a decision, becomes a parameter: the network,
the cache file, the platform and the operator's keyboard. The clock and the random delays change no
decision and are left out.

Points where the code's behaviour is easy to misread, and which the model follows as written:

- A page that asks for a login only empties the page strategy (train_ticket_monitor.py lines
  402-404). `query_tickets` then goes on to the API endpoints (lines 61-74), and so does
  `Query.QueryTickets` (`Query.LoginPageStillTriesApi`).
- Writing the freshly fetched station table to the cache file (lines 234-235) sits inside the same
  `try` as the fetch. A failed write is caught at line 239, the table just parsed is discarded, and
  the built-in table answers (`Stations.CacheWriteFailureFallsBack`).
- The built-in table has 21 entries (lines 243-250).
- Inside the API loop, only request errors and JSON decoding errors are caught per endpoint. Any
  other exception escapes to the outer handler and abandons the remaining endpoints (lines
  105-202). This is the `Fault` outcome. Examples:
  - a body that decodes to a number, a boolean or `null`, where `'data' in data` raises (line 137);
  - a `data` member that `'result' in ...` cannot search, such as a number;
  - a JSON list that holds the string `"data"`, which `data['data']` cannot index;
  - a result entry that is not a string, which has no `split` (line 140).

  A list without `"data"` or a string without the substring `data` fails the `'data' in data` test
  instead, and the loop moves on (lines 175-180).

## Model

| member | source | states |
|---|---|---|
| Text.Split | train_ticket_monitor.py:140 | Python `split`: one more field than there are delimiters, no field holds the delimiter; `Text.SplitJoin`/`Text.JoinSplit` make it the inverse of joining |
| Text.Strip | train_ticket_monitor.py:222 | `strip("';\n")`: the result is the infix after the leading junk run whose outside is all junk and whose ends are not junk |
| Text.Contains | train_ticket_monitor.py:402 | Python `in` on strings: true exactly when some index starts an occurrence |
| Query.LoginMarkerAnywhere | train_ticket_monitor.py:402 | either login marker anywhere in the page makes it a login page |
| Text.LowerIsY | train_ticket_monitor.py:318 | `choice.lower() == 'y'` holds exactly for the answers "y" and "Y" |
| Tickets.OrNotOffered | train_ticket_monitor.py:152-161 | `field or '--'`: never empty, and a non-empty field is kept as is |
| Tickets.ParseRecord | train_ticket_monitor.py:140-163 | a record yields a ticket exactly when it has at least 34 fields (33 separators); a parsed ticket has separator-free fields, exactly the ten seat classes as keys and non-empty tokens |
| Tickets.SeatMapKeys | train_ticket_monitor.py:151-162 | the seat map's keys are exactly the ten seat classes, and every token is non-empty and separator-free |
| Tickets.SeatMapColumn | train_ticket_monitor.py:151-162 | seat class `i` is read from its own column (32, 31, 30, 21, 23, 33, 28, 24, 29, 26), an empty field giving "--" |
| Tickets.ParseRecordColumns | train_ticket_monitor.py:144-162 | train code, stations, times and duration come from columns 3, 6, 7, 8, 9, 10 and every seat class from its column |
| Tickets.ParseEncode | train_ticket_monitor.py:140-163 | round trip: parsing the 34-field encoding of any well-formed ticket gives the ticket back |
| Tickets.Admit | train_ticket_monitor.py:141-169 | a record contributes a ticket exactly when it has at least 34 fields and the text in its column 3 passes the train filter, and then it is the record's parse |
| Tickets.ParseTickets | train_ticket_monitor.py:138-169 | every returned ticket is well-formed and passes the train filter, and there are never more tickets than records |
| Tickets.ParseTicketsSelects | train_ticket_monitor.py:138-169 | the result is exactly the kept records in input order: a strictly increasing index list, a position listed iff its record is kept |
| Tickets.ParseTicketsComplete | train_ticket_monitor.py:138-169 | every record that parses and passes the filter appears in the result |
| Tickets.ParseTicketsConcat | train_ticket_monitor.py:139-169 | parsing two record lists one after the other is parsing their concatenation |
| Tickets.ShortRecordSkipped | train_ticket_monitor.py:141-142 | a record with fewer than 34 fields is dropped without affecting the records around it |
| Tickets.ParseEncodedAlone | train_ticket_monitor.py:138-169 | a result holding just the encoding of a well-formed ticket, unfiltered, gives exactly that ticket |
| Tickets.AdmitFiltered | train_ticket_monitor.py:166-167 | per record: the empty filter admits what no filter admits, a non-empty filter additionally demands a listed train code |
| Tickets.TrainFilter | train_ticket_monitor.py:166-167 | `None` and `[]` filter nothing; a non-empty filter gives exactly the unfiltered result restricted to listed train codes, order kept |
| Tickets.UnfilteredCount | train_ticket_monitor.py:139-169 | without a filter, one ticket per record with at least 34 fields |
| Availability.EffectiveSeatTypes | train_ticket_monitor.py:255-256 | a missing or empty seat list means exactly the six defaults; a non-empty list is used exactly as given |
| Availability.AnyAvailableMeans | train_ticket_monitor.py:258-261 | the early-return loop finds an available class exactly when some listed class is a key with a token other than "--" and "无" |
| Availability.HasAvailable | train_ticket_monitor.py:253-261 | available iff some effective seat class is a key of the seat map with a token other than "--" and "无"; unknown names are ignored |
| Availability.SeatListDefaults | train_ticket_monitor.py:255-259 | `None` and `[]` decide alike; adding a seat name the ticket lacks changes nothing |
| Availability.SentinelsMeanUnavailable | train_ticket_monitor.py:259 | only "--" and "无" in the checked classes means unavailable; one other token in a checked, offered class means available |
| Availability.DefaultsAreKeys | train_ticket_monitor.py:255-259 | for parsed tickets without a seat list, available iff one of the six defaults holds an available token |
| Availability.AvailableTickets | train_ticket_monitor.py:281-284 | the available list only holds available tickets and is no longer than the result |
| Availability.AvailableTicketsMembers | train_ticket_monitor.py:281-286 | a ticket is in the available list iff it is in the result and available; the list is empty iff no ticket is available |
| Availability.AvailableTicketsConcat | train_ticket_monitor.py:281-284 | the available list of two results one after the other is their two available lists one after the other, so order and repetitions of the result are kept |
| Availability.AvailableTicketsOne | train_ticket_monitor.py:282-284 | one ticket is listed once when available and not at all otherwise; with the concatenation lemma this fixes the whole list |
| Stations.ParseStationTable | train_ticket_monitor.py:221-223 | a table is produced exactly when the document contains `=` (otherwise `split('=')[1]` fails) |
| Stations.StationTableSegment | train_ticket_monitor.py:222-223 | only the text between the first and second `=`, stripped of quotes, semicolons and newlines, is read, split at `@` |
| Stations.LastEntry | train_ticket_monitor.py:226-231 | finds the last non-empty record of at least five parts with a given display name, or reports that none exists |
| Stations.BuildTable | train_ticket_monitor.py:225-231 | a name is in the table iff some non-empty record of at least five parts carries it, and its code is that of the last such record |
| Stations.Resolve | train_ticket_monitor.py:204-251 | a readable cache is final (hit: its code, miss: built-in table, no request); only a missing or unreadable cache fetches; a table that parsed and was written answers for the names it lists and the built-in table for the rest; any failure on the remote path gives the built-in answer with no cache; a name in the built-in table is always resolved |
| Stations.ResolveConsultsInOrder | train_ticket_monitor.py:204-251 | the code found is the first hit among the tables consulted in order: the readable cache, else the fetched and written table, then the built-in table |
| Stations.FirstHitFirst | train_ticket_monitor.py:207-250 | the first hit comes from a table that lists the name, and no earlier table lists it |
| Stations.UnknownEverywhere | train_ticket_monitor.py:204-251 | a name unknown to cache, remote table and built-in table resolves to nothing |
| Stations.ResolveIdempotent | train_ticket_monitor.py:207-211 | once a cache exists, resolving again gives the same code, keeps the cache and makes no request |
| Stations.CacheWriteFailureFallsBack | train_ticket_monitor.py:233-251 | a failed cache write discards the fetched table and the built-in table answers |
| Stations.FallbackCode | train_ticket_monitor.py:243-251 | the built-in table answers exactly for its 21 stations, always with a three-letter code |
| Query.UrlAt | train_ticket_monitor.py:413 | a match at an index is the prefix, a non-empty quote-free run and a quote at that index |
| Query.UrlAtComplete | train_ticket_monitor.py:413 | every occurrence of prefix, non-empty quote-free run and quote is a match at its index |
| Query.UrlFromLeftmost | train_ticket_monitor.py:413 | the search from an index finds nothing iff no later index matches, and otherwise the leftmost match |
| Query.ExtractTicketUrlSpec | train_ticket_monitor.py:413-418 | the extracted path is non-empty, quote-free and assigned in the page; nothing is extracted iff the page has no such assignment |
| Query.ExtractFirstAssignment | train_ticket_monitor.py:413-418 | with several assignments, the first one in the page is extracted |
| Query.UrlFromSkips | train_ticket_monitor.py:413 | the search passes over indices without a match |
| Query.UrlFrom | train_ticket_monitor.py:413 | a match found by the search is a non-empty run without a quote |
| Query.ExtractTicketUrl | train_ticket_monitor.py:413-418 | an extracted endpoint path is non-empty and has no quote |
| Query.WebStrategy | train_ticket_monitor.py:353-494 | the page strategy yields exactly the parse of the named endpoint's records when both codes are resolved, the page was fetched, has no login marker and names an endpoint, and that endpoint gave records; it yields tickets only on that path |
| Query.TryEndpoints | train_ticket_monitor.py:105-194 | every endpoint before the last one tried moved on; tickets come from the last one tried; nothing means all endpoints moved on or one faulted |
| Query.FirstNonEmptyEndpointWins | train_ticket_monitor.py:107-172 | the first endpoint with a non-empty filtered list after endpoints that moved on is the answer, and no later endpoint is requested |
| Query.EveryEndpointMovesOn | train_ticket_monitor.py:107-194 | when every endpoint moves on, all are requested and the loop returns nothing |
| Query.AllEndpointsFail | train_ticket_monitor.py:105-194 | with both strategies failing on all three endpoints, the query requests all three and returns nothing |
| Query.FaultAbandonsLaterEndpoints | train_ticket_monitor.py:105-202 | an uncaught failure at the first endpoint ends the query with nothing after one request |
| Query.QueryTickets | train_ticket_monitor.py:58-74 | at most three API requests; returned tickets are well-formed and pass the filter; the API is only tried after an empty page result with both codes resolved, and then the answer and request count are exactly the API loop's |
| Query.WebResultWins | train_ticket_monitor.py:61-63 | a non-empty page result is returned whatever the endpoints would say, with no API request |
| Query.UnresolvedStops | train_ticket_monitor.py:69-74 | after an empty page result, an unresolved code ends the query with nothing |
| Query.LoginPageStillTriesApi | train_ticket_monitor.py:402-404 | a login page or a page without the assignment still leads to the API endpoints when the codes resolve |
| Monitor.MessageSeats | train_ticket_monitor.py:298 | the message walks the given seat list as is, or else only seat classes the ticket has |
| Monitor.AllSeatsWithoutList | train_ticket_monitor.py:298 | without a seat list a parsed ticket's message walks all ten seat classes in table order |
| Monitor.SeatLines | train_ticket_monitor.py:298-302 | the lines are built iff every walked class is a key; otherwise the failure is the first walked class that is not a key |
| Monitor.SeatLinesContent | train_ticket_monitor.py:298-302 | the lines are exactly the line of each available walked class, in walking order and nothing else; they hold every such line and are empty iff none is available |
| Monitor.TicketBlock | train_ticket_monitor.py:294-302 | a ticket's block fails iff a seat list is given and names a class the ticket lacks, and then on the first such class in the list; a built block starts with the ticket's header line |
| Monitor.TicketBlockContent | train_ticket_monitor.py:294-302 | a built block is exactly the header line followed by the line of each available walked class, in walking order |
| Monitor.AlertMessageFails | train_ticket_monitor.py:293-302 | the message is built iff no available ticket lacks a listed class; a failure is the failure of the first available ticket whose block fails, which is its first missing listed class |
| Monitor.AlertMessageContent | train_ticket_monitor.py:293-302 | a built message is exactly the expected blocks of the available tickets in their order, one after the other, and so holds each ticket's block |
| Monitor.AlertMessage | train_ticket_monitor.py:293-302 | a built message for a non-empty list starts with the first available ticket's header line |
| Monitor.NoListNeverFails | train_ticket_monitor.py:298-299 | without a seat list the message is always built |
| Monitor.KnownSeatsNeverFail | train_ticket_monitor.py:298-299 | a seat list naming only the ten seat classes never fails on parsed tickets |
| Monitor.UnknownSeatFails | train_ticket_monitor.py:298-299 | a listed name outside the ten seat classes fails the message as soon as a parsed ticket is available |
| Monitor.AlertEventsContent | train_ticket_monitor.py:304-317 | an alert sounds and asks, never waits or says "no trains", notifies exactly on macOS and Linux, and every notification carries the title and the message |
| Monitor.AlertEvents | train_ticket_monitor.py:286-317 | an alert shows the result, announces the available tickets, sounds five times, then notifies with the title and the message where the platform can, and asks last |
| Monitor.StepNotifies | train_ticket_monitor.py:293-314 | a cycle notifies iff it alerts on a platform with notifications, and the notification carries the title and exactly the expected blocks of the available tickets |
| Monitor.Step | train_ticket_monitor.py:271-325 | every cycle has at least two events and starts with the result table, or with the "no trains" notice for an empty result |
| Monitor.StepCycle | train_ticket_monitor.py:271-325 | the events of a cycle in order: "no trains" then the wait for an empty result; the table then the wait when nothing is available; otherwise the alert sequence with the expected blocks as message, followed by the wait only on "y" or "Y" |
| Monitor.StepAlerts | train_ticket_monitor.py:277-322 | "no trains" iff the result is empty; sounds, question and notification iff a ticket is available and the message was built |
| Monitor.StepStops | train_ticket_monitor.py:316-320 | a cycle stops the loop iff the operator was asked and did not answer "y" or "Y" |
| Monitor.FailingSeat | train_ticket_monitor.py:286-302 | a failed message names a listed class that some available ticket of the result lacks |
| Monitor.StepCrashes | train_ticket_monitor.py:286-302 | a cycle crashes iff a ticket is available and the message cannot be built; the seat is the first class missing from the first available ticket that lacks one, and the cycle has only shown the table and announced the available tickets |
| Monitor.StepWaits | train_ticket_monitor.py:318-325 | a cycle ends with the wait iff the loop goes on polling |
| Monitor.Chain | train_ticket_monitor.py:271-325 | the loop runs cycles in order until one does not go on; if it never stops, every poll was consumed and went on |
| Monitor.ChainEvents | train_ticket_monitor.py:271-325 | an event of the run is exactly an event of one of the cycles it took |
| Monitor.ChainEventsInOrder | train_ticket_monitor.py:271-325 | the run's events are exactly the events of the cycles run, in order, with nothing repeated and nothing from a later poll |
| Monitor.ChainConcat | train_ticket_monitor.py:271-325 | running two traces one after the other is running their concatenation, while the first keeps polling |
| Monitor.RunConcat | train_ticket_monitor.py:271-325 | the monitor over a concatenated trace is the two runs one after the other, while the first keeps polling |
| Monitor.RunMonitor | train_ticket_monitor.py:271-325 | the loop runs at most one cycle per poll; while polling it has run them all, and once ended it has run at least one |
| Monitor.QuietWhileNothingAvailable | train_ticket_monitor.py:277-325 | with nothing available in any poll, the loop polls through the whole trace without sounding or asking |
| Monitor.YesCycleRuns | train_ticket_monitor.py:298-320 | without a seat list, a cycle answered "y" or "Y" goes on polling |
| Monitor.YesKeepsPolling | train_ticket_monitor.py:271-325 | without a seat list and answering "y" or "Y", the loop never stops or crashes |
| Monitor.StopMeansDeclined | train_ticket_monitor.py:316-320 | a stopped loop stopped at a cycle with an available ticket whose answer was neither "y" nor "Y" |
| Monitor.ExampleWellFormed | train_ticket_monitor.py:144-162 | the example ticket has the shape the parser produces |
| Monitor.ExampleFields | train_ticket_monitor.py:140-154 | the example record has 34 fields with "G103" in column 3, "08:00" in column 8 and the token in column 30 |
| Monitor.ExampleParses | train_ticket_monitor.py:140-163 | the example record parses to the example ticket, whose second-class token, read from column 30, is the given token |
| Monitor.ExampleQuery | train_ticket_monitor.py:138-169 | an unfiltered result holding only the example record gives the example ticket |
| Monitor.ExampleAvailable | train_ticket_monitor.py:253-261 | a count in the second-class column makes the example available without a seat list |
| Monitor.ExampleMessage | train_ticket_monitor.py:293-302 | the example's alert message can be built without a seat list |
| Monitor.ExampleAlerts | train_ticket_monitor.py:277-320 | on the available example the cycle sounds and asks; "y" keeps polling, "n" stops |
| Monitor.ExampleStaysQuiet | train_ticket_monitor.py:277-325 | with every class "--" the example is unavailable and the cycle shows the result and waits |

## Left out

- HTTP: headers, proxies, timeouts, TLS settings, status codes and JSON decoding. Each exchange is
  reduced to its `Query.Outcome`, and the page to its text.
- Random delays, `time.sleep` and the clock. A wait is the `Sleep` event; the timestamps are not
  modelled.
- The cache file's I/O. Its content is a parameter: a name map, or `None` when missing or not valid
  JSON. The write's success is a boolean. Valid JSON that is not an object is not modelled, and
  neither are I/O errors other than a missing file on read.
- Sounds and desktop notifications, including `winsound`, `afplay`, `osascript` and `notify-send`.
  Each is an event; the shell commands are not modelled.
- `display_tickets` (the console table) is only the `Shown` event. It reads seven seat keys that every
  parsed ticket has.
- Console printing, configuration loading, argument parsing, the `main` entry point, the interactive
  questions asked at start-up, and `setup.py`. These are outside the core.
- The monitor loop receives each cycle's query result directly. The composition of
  `Query.QueryTickets` and `Monitor.Step` is not stated as one lemma.
- The query date and the URLs built from it and from the codes only address requests. They do not
  change any decision the model makes.
- Monitor.GoesOn: `lower()` is modelled for ASCII letters only. Every non-ASCII character that Python
  lower-cases to "y" is outside the model; only one-character answers matter for "y".
- Monitor.MessageSeats: without a seat list, the ticket's own keys are walked in the seat table's
  order. This is the parser's dict insertion order. Dicts of other origins are not modelled.
- Query.Outcome: a `Fault` lumps together every exception that escapes the per-endpoint handlers. Its
  cause is not modelled.
