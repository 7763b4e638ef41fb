/** The monitoring loop as a step function: each cycle consumes one query result and,
    when it is asked for, the operator's answer, and emits the events the cycle produces. */
module Monitor {
  import opened Wrappers
  import opened Text
  import opened Seqs
  import opened Tickets
  import opened Availability

  /** The operating system, as far as it decides how the operator is alerted. */
  datatype Platform = Windows | MacOS | Linux | OtherOS

  /** What the loop is started with: the two station names (only used in the
      notification title), the seat list (`None`: not given) and the platform. */
  datatype Config = Config(fromStation: string, toStation: string, seatTypes: Option<seq<string>>, platform: Platform)

  /** Observable effects of a cycle.
      - NoTrains: the "no matching trains" notice for an empty query result;
      - Shown(tickets): the result table;
      - Found(available): the "tickets found" notice and the per-ticket lines;
      - Beep: one alert sound;
      - Notify(title, message): a desktop notification;
      - Prompt: the operator is asked whether to go on;
      - Sleep: the wait before the next query. */
  datatype Event = NoTrains | Shown(tickets: seq<Ticket>) | Found(available: seq<Ticket>)
                 | Beep | Notify(title: string, message: string) | Prompt | Sleep

  /** Where the loop stands: still polling, stopped by the operator, or ended by the
      lookup of a listed seat class the ticket does not have. */
  datatype Status = Running | Stopped | Crashed(seat: string)

  /** One cycle's input: the query result and the operator's answer, which is only read
      when the operator is asked. */
  datatype Poll = Poll(tickets: seq<Ticket>, answer: string)

  /** One cycle's effects and the state it leaves the loop in. */
  datatype Cycle = Cycle(events: seq<Event>, status: Status)

  /** Number of alert sounds per alert. */
  const AlertBeeps: nat := 5

  /** Desktop notifications exist on macOS and Linux only. */
  predicate Notifies(p: Platform)
  {
    p == MacOS || p == Linux
  }

  function Beeps(n: nat): (r: seq<Event>)
    ensures |r| == n
    ensures forall k :: 0 <= k < n ==> r[k] == Beep
  {
    seq(n, _ => Beep)
  }

  /** The notification title. */
  function Title(cfg: Config): string
  {
    "12306 车票提醒 - " + cfg.fromStation + "到" + cfg.toStation
  }

  /** The first line of a ticket's block in the message. */
  function Header(t: Ticket): string
  {
    "车次: " + t.trainCode + ", 出发: " + t.departureTime
  }

  /** The line for one available seat class. */
  function SeatLine(name: string, token: string): (r: string)
    ensures r != ""
  {
    "  " + name + ": " + token + "\n"
  }

  /** A seat list was given: `None` and the empty list both count as not given. */
  predicate HasSeatList(seatTypes: Option<seq<string>>)
  {
    seatTypes.Some? && seatTypes.value != []
  }

  /** The seat classes a ticket's message block goes through: the given list as it is,
      otherwise the ticket's own seat classes in their table order. */
  function MessageSeats(t: Ticket, seatTypes: Option<seq<string>>): (r: seq<string>)
    ensures HasSeatList(seatTypes) ==> r == seatTypes.value
    ensures !HasSeatList(seatTypes) ==> forall k :: 0 <= k < |r| ==> r[k] in t.seats
  {
    if HasSeatList(seatTypes) then seatTypes.value else Filter(SeatNames, s => s in t.seats)
  }

  /** A parsed ticket without a seat list goes through all ten seat classes. */
  lemma AllSeatsWithoutList(t: Ticket, seatTypes: Option<seq<string>>)
    requires WellFormed(t) && !HasSeatList(seatTypes)
    ensures MessageSeats(t, seatTypes) == SeatNames
  {
    assert forall j :: 0 <= j < |SeatNames| ==> SeatNames[j] in SeatNameSet;
    FilterAll(SeatNames, s => s in t.seats);
  }

  /** Every listed seat class is a key of the seat map. */
  predicate AllKeys(seats: map<string, string>, names: seq<string>)
  {
    forall i :: 0 <= i < |names| ==> names[i] in seats
  }

  /** The given seat list names a class that is not a key of the ticket's seat map. */
  predicate Lacks(t: Ticket, seatTypes: Option<seq<string>>)
  {
    HasSeatList(seatTypes) && !AllKeys(t.seats, seatTypes.value)
  }

  /** No available ticket lacks a listed seat class. */
  predicate NoneLacks(available: seq<Ticket>, seatTypes: Option<seq<string>>)
  {
    forall k :: 0 <= k < |available| ==> !Lacks(available[k], seatTypes)
  }

  /** The seat lines of one ticket, looking up every listed class in turn and keeping the
      available ones. A class that is not a key fails the lookup, and the first such
      class is the error. */
  function SeatLines(seats: map<string, string>, names: seq<string>): (r: Result<string, string>)
    ensures r.Success? <==> AllKeys(seats, names)
    ensures r.Failure? ==> r.error in names && r.error !in seats
    ensures r.Failure? ==> exists i :: 0 <= i < |names| && names[i] == r.error && AllKeys(seats, names[..i])
  {
    if |names| == 0 then Success("")
    else if names[0] !in seats then
      assert AllKeys(seats, names[..0]);
      Failure(names[0])
    else
      var tail := names[1..];
      assert forall i :: 1 <= i < |names| ==> names[i] == tail[i - 1];
      var rest := SeatLines(seats, tail);
      if rest.Failure? then
        assert exists i :: 0 <= i < |names| && names[i] == rest.error && AllKeys(seats, names[..i]) by {
          var j :| 0 <= j < |tail| && tail[j] == rest.error && AllKeys(seats, tail[..j]);
          assert AllKeys(seats, names[..j + 1]);
          assert names[j + 1] == rest.error;
        }
        rest
      else
        var line := if IsAvailableToken(seats[names[0]]) then SeatLine(names[0], seats[names[0]]) else "";
        Success(line + rest.value)
  }

  /** The line a walked seat class contributes to the message: its seat line when it is a
      key with an available token, nothing otherwise. */
  function LineOf(seats: map<string, string>, name: string): Option<string>
  {
    if name in seats && IsAvailableToken(seats[name]) then Some(SeatLine(name, seats[name])) else None
  }

  /** The seat lines a block should carry: one per available walked class, in walking
      order. */
  function ExpectedLines(seats: map<string, string>, names: seq<string>): seq<string>
  {
    FilterMap(names, n => LineOf(seats, n))
  }

  /** A ticket's expected block: its header line, then its expected seat lines. */
  function Block(t: Ticket, seatTypes: Option<seq<string>>): string
  {
    Header(t) + "\n" + Flatten(ExpectedLines(t.seats, MessageSeats(t, seatTypes)))
  }

  /** The expected blocks of the available tickets, in their order. */
  function Blocks(available: seq<Ticket>, seatTypes: Option<seq<string>>): seq<string>
  {
    MapSeq(available, t => Block(t, seatTypes))
  }

  /** The seat lines are exactly the expected lines, one after the other; they hold the line
      of every available listed class, and are empty exactly when no listed class is
      available. */
  lemma {:induction false} SeatLinesContent(seats: map<string, string>, names: seq<string>)
    requires SeatLines(seats, names).Success?
    ensures forall i :: 0 <= i < |names| && IsAvailableToken(seats[names[i]]) ==>
      Contains(SeatLines(seats, names).value, SeatLine(names[i], seats[names[i]]))
    ensures SeatLines(seats, names).value == "" <==>
      forall i :: 0 <= i < |names| ==> !IsAvailableToken(seats[names[i]])
    ensures SeatLines(seats, names).value == Flatten(ExpectedLines(seats, names))
  {
    if |names| > 0 {
      var rest := names[1..];
      assert forall i :: 1 <= i < |names| ==> names[i] == rest[i - 1];
      SeatLinesContent(seats, rest);
      var restLines := SeatLines(seats, rest).value;
      var tok := seats[names[0]];
      var line := if IsAvailableToken(tok) then SeatLine(names[0], tok) else "";
      assert SeatLines(seats, names).value == line + restLines;
      var head := if LineOf(seats, names[0]).Some? then [LineOf(seats, names[0]).value] else [];
      assert ExpectedLines(seats, names) == head + ExpectedLines(seats, rest);
      FlattenConcat(head, ExpectedLines(seats, rest));
      if head != [] {
        FlattenOne(head[0]);
      }
      forall i | 0 <= i < |names| && IsAvailableToken(seats[names[i]])
        ensures Contains(line + restLines, SeatLine(names[i], seats[names[i]]))
      {
        if i == 0 {
          ContainsSelf(line);
          ContainsConcat(line, restLines, line);
        } else {
          assert names[i] == rest[i - 1];
          ContainsConcat(line, restLines, SeatLine(names[i], seats[names[i]]));
        }
      }
    }
  }

  /** One ticket's block of the message: its header, a newline and its seat lines. */
  function TicketBlock(t: Ticket, seatTypes: Option<seq<string>>): (r: Result<string, string>)
    ensures r.Failure? <==> Lacks(t, seatTypes)
    ensures r.Failure? ==> HasSeatList(seatTypes) && r.error in seatTypes.value && r.error !in t.seats
    ensures r.Failure? ==> exists i :: && 0 <= i < |seatTypes.value| && seatTypes.value[i] == r.error
                                       && AllKeys(t.seats, seatTypes.value[..i])
    ensures r.Success? ==> Header(t) + "\n" <= r.value
  {
    var lines := SeatLines(t.seats, MessageSeats(t, seatTypes));
    if lines.Failure? then Failure(lines.error)
    else Success(Header(t) + "\n" + lines.value)
  }

  /** The notification message: the blocks of the available tickets in order, or the
      first seat class whose lookup fails. */
  function AlertMessage(available: seq<Ticket>, seatTypes: Option<seq<string>>): (r: Result<string, string>)
    ensures r.Success? && available != [] ==> Header(available[0]) + "\n" <= r.value
  {
    if |available| == 0 then Success("")
    else
      var block := TicketBlock(available[0], seatTypes);
      if block.Failure? then Failure(block.error)
      else
        var rest := AlertMessage(available[1..], seatTypes);
        if rest.Failure? then rest else Success(block.value + rest.value)
  }

  /** The message fails exactly when an available ticket lacks a listed seat class. The
      failing class is a listed class that some available ticket lacks: the first class
      missing from the first available ticket that lacks one. */
  lemma {:induction false} AlertMessageFails(available: seq<Ticket>, seatTypes: Option<seq<string>>)
    ensures AlertMessage(available, seatTypes).Success? <==> NoneLacks(available, seatTypes)
    ensures var r := AlertMessage(available, seatTypes);
      r.Failure? ==> && HasSeatList(seatTypes) && r.error in seatTypes.value
                     && exists k :: 0 <= k < |available| && r.error !in available[k].seats
    ensures var r := AlertMessage(available, seatTypes);
      r.Failure? ==> exists k :: && 0 <= k < |available| && NoneLacks(available[..k], seatTypes)
                                 && TicketBlock(available[k], seatTypes) == Failure(r.error)
  {
    AlertMessageLacks(available, seatTypes);
    AlertMessageFirstFailure(available, seatTypes);
  }

  /** The message fails exactly when an available ticket lacks a listed seat class, on a
      listed class that some available ticket lacks. */
  lemma {:induction false} AlertMessageLacks(available: seq<Ticket>, seatTypes: Option<seq<string>>)
    ensures AlertMessage(available, seatTypes).Success? <==> NoneLacks(available, seatTypes)
    ensures var r := AlertMessage(available, seatTypes);
      r.Failure? ==> && HasSeatList(seatTypes) && r.error in seatTypes.value
                     && exists k :: 0 <= k < |available| && r.error !in available[k].seats
  {
    if |available| > 0 {
      var rest := available[1..];
      assert forall k :: 1 <= k < |available| ==> available[k] == rest[k - 1];
      AlertMessageLacks(rest, seatTypes);
      var r := AlertMessage(available, seatTypes);
      if r.Failure? && TicketBlock(available[0], seatTypes).Success? {
        var k :| 0 <= k < |rest| && r.error !in rest[k].seats;
        assert r.error !in available[k + 1].seats;
      }
    }
  }

  /** A failed message carries the failure of the first available ticket whose block
      fails. */
  lemma {:induction false} AlertMessageFirstFailure(available: seq<Ticket>, seatTypes: Option<seq<string>>)
    ensures var r := AlertMessage(available, seatTypes);
      r.Failure? ==> exists k :: && 0 <= k < |available| && NoneLacks(available[..k], seatTypes)
                                 && TicketBlock(available[k], seatTypes) == Failure(r.error)
  {
    if |available| > 0 {
      var rest := available[1..];
      AlertMessageFirstFailure(rest, seatTypes);
      var r := AlertMessage(available, seatTypes);
      if r.Failure? && TicketBlock(available[0], seatTypes).Success? {
        var j :| && 0 <= j < |rest| && NoneLacks(rest[..j], seatTypes)
                 && TicketBlock(rest[j], seatTypes) == Failure(r.error);
        assert available[j + 1] == rest[j];
        var pre := available[..j + 1];
        assert NoneLacks(pre, seatTypes) by {
          forall l | 0 <= l < |pre| ensures !Lacks(pre[l], seatTypes) {
            if l > 0 {
              assert pre[l] == rest[..j][l - 1];
            }
          }
        }
      } else if r.Failure? {
        assert NoneLacks(available[..0], seatTypes);
      }
    }
  }

  /** A message that can be built is exactly the expected blocks of the available tickets,
      in their order; so it holds every available ticket's block. */
  lemma {:induction false} AlertMessageContent(available: seq<Ticket>, seatTypes: Option<seq<string>>)
    requires NoneLacks(available, seatTypes)
    ensures && AlertMessage(available, seatTypes).Success?
            && forall k :: 0 <= k < |available| ==>
                 Contains(AlertMessage(available, seatTypes).value, TicketBlock(available[k], seatTypes).value)
    ensures AlertMessage(available, seatTypes) == Success(Flatten(Blocks(available, seatTypes)))
  {
    AlertMessageBlocks(available, seatTypes);
    if |available| > 0 {
      var rest := available[1..];
      assert NoneLacks(rest, seatTypes) by {
        forall k | 0 <= k < |rest| ensures !Lacks(rest[k], seatTypes) {
          assert rest[k] == available[k + 1];
        }
      }
      AlertMessageContent(rest, seatTypes);
      assert !Lacks(available[0], seatTypes);
      var block := TicketBlock(available[0], seatTypes).value;
      var restMsg := AlertMessage(rest, seatTypes).value;
      assert AlertMessage(available, seatTypes) == Success(block + restMsg);
      forall k | 0 <= k < |available|
        ensures Contains(block + restMsg, TicketBlock(available[k], seatTypes).value)
      {
        var b := TicketBlock(available[k], seatTypes).value;
        if k == 0 {
          ContainsSelf(block);
          ContainsConcat(block, restMsg, block);
        } else {
          assert available[k] == rest[k - 1];
          assert Contains(restMsg, b);
          ContainsConcat(block, restMsg, b);
        }
      }
    }
  }

  /** With no available ticket lacking a listed class, the message is the expected blocks
      one after the other. */
  lemma {:induction false} AlertMessageBlocks(available: seq<Ticket>, seatTypes: Option<seq<string>>)
    requires NoneLacks(available, seatTypes)
    ensures AlertMessage(available, seatTypes) == Success(Flatten(Blocks(available, seatTypes)))
  {
    if |available| > 0 {
      var rest := available[1..];
      assert NoneLacks(rest, seatTypes) by {
        forall k | 0 <= k < |rest| ensures !Lacks(rest[k], seatTypes) {
          assert rest[k] == available[k + 1];
        }
      }
      AlertMessageBlocks(rest, seatTypes);
      assert !Lacks(available[0], seatTypes);
      TicketBlockContent(available[0], seatTypes);
      var block := Block(available[0], seatTypes);
      MapSeqCons(available, t => Block(t, seatTypes));
      FlattenConcat([block], Blocks(rest, seatTypes));
      FlattenOne(block);
    }
  }

  /** A block is exactly the expected block: the header line, then one line per available
      class it goes through, in walking order. So it holds the line of every available
      class it goes through. */
  lemma TicketBlockContent(t: Ticket, seatTypes: Option<seq<string>>)
    requires TicketBlock(t, seatTypes).Success?
    ensures Header(t) + "\n" <= TicketBlock(t, seatTypes).value
    ensures forall s :: s in MessageSeats(t, seatTypes) && IsAvailableToken(t.seats[s]) ==>
      Contains(TicketBlock(t, seatTypes).value, SeatLine(s, t.seats[s]))
    ensures TicketBlock(t, seatTypes) == Success(Block(t, seatTypes))
  {
    var names := MessageSeats(t, seatTypes);
    var lines := SeatLines(t.seats, names).value;
    SeatLinesContent(t.seats, names);
    forall s | s in names && IsAvailableToken(t.seats[s])
      ensures Contains(Header(t) + "\n" + lines, SeatLine(s, t.seats[s]))
    {
      var i :| 0 <= i < |names| && names[i] == s;
      ContainsConcat(Header(t) + "\n", lines, SeatLine(s, t.seats[s]));
    }
  }

  /** Without a seat list no lookup can fail: the seat classes looked up are the ticket's
      own keys. */
  lemma NoListNeverFails(available: seq<Ticket>, seatTypes: Option<seq<string>>)
    requires !HasSeatList(seatTypes)
    ensures AlertMessage(available, seatTypes).Success?
  {
    AlertMessageFails(available, seatTypes);
  }

  /** A seat list naming only the ten seat classes never fails the lookup on parsed
      tickets. */
  lemma KnownSeatsNeverFail(available: seq<Ticket>, seatTypes: Option<seq<string>>)
    requires forall k :: 0 <= k < |available| ==> WellFormed(available[k])
    requires forall i :: 0 <= i < |seatTypes.GetOr([])| ==> seatTypes.GetOr([])[i] in SeatNameSet
    ensures AlertMessage(available, seatTypes).Success?
  {
    forall k | 0 <= k < |available| ensures !Lacks(available[k], seatTypes) {
      if HasSeatList(seatTypes) {
        assert available[k].seats.Keys == SeatNameSet;
        forall i | 0 <= i < |seatTypes.value| ensures seatTypes.value[i] in available[k].seats {
          assert seatTypes.value[i] == seatTypes.GetOr([])[i];
        }
      }
    }
    AlertMessageFails(available, seatTypes);
  }

  /** A listed class that none of the ten seat classes matches fails the lookup as soon as
      any parsed ticket is available. */
  lemma UnknownSeatFails(available: seq<Ticket>, seatTypes: Option<seq<string>>)
    requires forall k :: 0 <= k < |available| ==> WellFormed(available[k])
    requires HasSeatList(seatTypes) && available != []
    requires exists i :: 0 <= i < |seatTypes.value| && seatTypes.value[i] !in SeatNameSet
    ensures AlertMessage(available, seatTypes).Failure?
  {
    var i :| 0 <= i < |seatTypes.value| && seatTypes.value[i] !in SeatNameSet;
    assert available[0].seats.Keys == SeatNameSet;
    assert !AllKeys(available[0].seats, seatTypes.value);
    assert Lacks(available[0], seatTypes);
    AlertMessageFails(available, seatTypes);
  }

  /** The tickets of a result that trigger an alert. */
  function Available(cfg: Config, tickets: seq<Ticket>): seq<Ticket>
  {
    AvailableTickets(tickets, cfg.seatTypes)
  }

  /** The cycle alerts the operator and asks whether to go on: some ticket is available and
      the message could be built. */
  predicate Alerted(cfg: Config, tickets: seq<Ticket>)
  {
    Available(cfg, tickets) != [] && AlertMessage(Available(cfg, tickets), cfg.seatTypes).Success?
  }

  /** The operator's answer, lower-cased, is "y". */
  predicate GoesOn(answer: string)
  {
    Lower(answer) == "y"
  }

  predicate Notified(events: seq<Event>)
  {
    exists k :: 0 <= k < |events| && events[k].Notify?
  }

  /** The alert events of a cycle that has a message for the operator: the result table,
      the notice, five sounds, a notification where the platform has them, the question. */
  function AlertEvents(cfg: Config, tickets: seq<Ticket>, available: seq<Ticket>, message: string): (r: seq<Event>)
    ensures |r| == 3 + AlertBeeps + (if Notifies(cfg.platform) then 1 else 0)
    ensures r[0] == Shown(tickets) && r[1] == Found(available) && r[|r| - 1] == Prompt
    ensures forall k :: 2 <= k < 2 + AlertBeeps ==> r[k] == Beep
    ensures Notifies(cfg.platform) ==> r[2 + AlertBeeps] == Notify(Title(cfg), message)
  {
    [Shown(tickets), Found(available)] + Beeps(AlertBeeps)
    + (if Notifies(cfg.platform) then [Notify(Title(cfg), message)] else []) + [Prompt]
  }

  /** One cycle. An empty result or one without an available ticket goes straight to the
      wait. Otherwise the message is built, the operator is alerted and asked; any answer
      but "y" or "Y" stops the loop. A failed seat lookup ends the loop mid-message. */
  function Step(cfg: Config, poll: Poll): (c: Cycle)
    ensures |c.events| >= 2
    ensures c.events[0] == if poll.tickets == [] then NoTrains else Shown(poll.tickets)
  {
    if poll.tickets == [] then Cycle([NoTrains, Sleep], Running)
    else
      var available := Available(cfg, poll.tickets);
      if available == [] then Cycle([Shown(poll.tickets), Sleep], Running)
      else match AlertMessage(available, cfg.seatTypes)
        case Failure(seat) => Cycle([Shown(poll.tickets), Found(available)], Crashed(seat))
        case Success(message) =>
          var alert := AlertEvents(cfg, poll.tickets, available, message);
          if GoesOn(poll.answer) then Cycle(alert + [Sleep], Running) else Cycle(alert, Stopped)
  }

  /** The events of a cycle, in order. An empty result shows "no trains" and waits; a result
      without an available ticket shows the table and waits. A cycle that alerts shows the
      table, announces the available tickets, sounds, notifies with the expected blocks of
      the available tickets (where the platform can), asks, and waits only on "y" or "Y". */
  lemma StepCycle(cfg: Config, poll: Poll)
    ensures poll.tickets == [] ==> Step(cfg, poll) == Cycle([NoTrains, Sleep], Running)
    ensures poll.tickets != [] && Available(cfg, poll.tickets) == [] ==>
      Step(cfg, poll) == Cycle([Shown(poll.tickets), Sleep], Running)
    ensures Alerted(cfg, poll.tickets) ==>
      var available := Available(cfg, poll.tickets);
      Step(cfg, poll).events
        == AlertEvents(cfg, poll.tickets, available, Flatten(Blocks(available, cfg.seatTypes)))
           + (if GoesOn(poll.answer) then [Sleep] else [])
  {
    if Alerted(cfg, poll.tickets) {
      var available := Available(cfg, poll.tickets);
      AlertMessageFails(available, cfg.seatTypes);
      AlertMessageBlocks(available, cfg.seatTypes);
    }
  }

  /** The alert events hold sounds and the question, and a notification exactly where the
      platform has them. */
  lemma AlertEventsContent(cfg: Config, tickets: seq<Ticket>, available: seq<Ticket>, message: string)
    ensures var e := AlertEvents(cfg, tickets, available, message);
      && Prompt in e && Beep in e && Sleep !in e && NoTrains !in e
      && (Notified(e) <==> Notifies(cfg.platform))
    ensures var e := AlertEvents(cfg, tickets, available, message);
      forall k :: 0 <= k < |e| && e[k].Notify? ==> e[k] == Notify(Title(cfg), message)
  {
    var e := AlertEvents(cfg, tickets, available, message);
    assert e[2] == Beep;
    if Notifies(cfg.platform) {
      assert e[7].Notify?;
    } else {
      assert forall k :: 0 <= k < |e| ==> !e[k].Notify?;
    }
  }

  /** A cycle notifies exactly when it alerts on a platform that has notifications. */
  lemma StepNotifies(cfg: Config, poll: Poll)
    ensures Notified(Step(cfg, poll).events) <==> Alerted(cfg, poll.tickets) && Notifies(cfg.platform)
    ensures var c := Step(cfg, poll);
      forall k :: 0 <= k < |c.events| && c.events[k].Notify? ==>
        c.events[k] == Notify(Title(cfg), Flatten(Blocks(Available(cfg, poll.tickets), cfg.seatTypes)))
  {
    var c := Step(cfg, poll);
    if Alerted(cfg, poll.tickets) {
      var available := Available(cfg, poll.tickets);
      var message := Flatten(Blocks(available, cfg.seatTypes));
      StepCycle(cfg, poll);
      AlertEventsContent(cfg, poll.tickets, available, message);
      var alert := AlertEvents(cfg, poll.tickets, available, message);
      AppendQuiet(alert, if GoesOn(poll.answer) then [Sleep] else [], Notify(Title(cfg), message));
    } else {
      assert !Notified(c.events);
    }
  }

  /** Events without a notification appended to a list leave its notifications as they
      were. */
  lemma AppendQuiet(events: seq<Event>, quiet: seq<Event>, note: Event)
    requires forall k :: 0 <= k < |quiet| ==> !quiet[k].Notify?
    requires forall k :: 0 <= k < |events| && events[k].Notify? ==> events[k] == note
    ensures Notified(events + quiet) <==> Notified(events)
    ensures forall k :: 0 <= k < |events + quiet| && (events + quiet)[k].Notify? ==> (events + quiet)[k] == note
  {
    var all := events + quiet;
    if Notified(all) {
      var k :| 0 <= k < |all| && all[k].Notify?;
      assert k < |events| && all[k] == events[k];
    }
    if Notified(events) {
      var k :| 0 <= k < |events| && events[k].Notify?;
      assert all[k] == events[k];
    }
  }

  /** A cycle alerts, sounds, notifies (where it can) and asks exactly when some ticket is
      available and the message could be built; it says "no trains" exactly for an empty
      result. */
  lemma StepAlerts(cfg: Config, poll: Poll)
    ensures var c := Step(cfg, poll);
      && (NoTrains in c.events <==> poll.tickets == [])
      && (Prompt in c.events <==> Alerted(cfg, poll.tickets))
      && (Beep in c.events <==> Alerted(cfg, poll.tickets))
      && (Notified(c.events) <==> Alerted(cfg, poll.tickets) && Notifies(cfg.platform))
  {
    if Alerted(cfg, poll.tickets) {
      var available := Available(cfg, poll.tickets);
      AlertEventsContent(cfg, poll.tickets, available, AlertMessage(available, cfg.seatTypes).value);
    }
    StepNotifies(cfg, poll);
  }

  /** A cycle stops the loop exactly when the operator was asked and did not answer "y"
      or "Y". */
  lemma StepStops(cfg: Config, poll: Poll)
    ensures Step(cfg, poll).status == Stopped <==> Alerted(cfg, poll.tickets) && !GoesOn(poll.answer)
  {
  }

  /** A message that fails on the available tickets of a result fails on a listed seat
      class that some available ticket of the result lacks. */
  lemma FailingSeat(tickets: seq<Ticket>, seatTypes: Option<seq<string>>)
    requires AlertMessage(AvailableTickets(tickets, seatTypes), seatTypes).Failure?
    ensures var seat := AlertMessage(AvailableTickets(tickets, seatTypes), seatTypes).error;
      && HasSeatList(seatTypes) && seat in seatTypes.value
      && exists k :: 0 <= k < |tickets| && HasAvailable(tickets[k], seatTypes) && seat !in tickets[k].seats
  {
    var available := AvailableTickets(tickets, seatTypes);
    var seat := AlertMessage(available, seatTypes).error;
    AlertMessageFails(available, seatTypes);
    var k :| 0 <= k < |available| && seat !in available[k].seats;
    AvailableTicketsMembers(tickets, seatTypes);
    assert available[k] in tickets;
    var j :| 0 <= j < |tickets| && tickets[j] == available[k];
  }

  /** A cycle crashes exactly when a ticket is available but the message cannot be built,
      and then on a listed seat class that some available ticket of the result lacks: the
      first class missing from the first available ticket that lacks one, after showing the
      table and announcing the available tickets. */
  lemma StepCrashes(cfg: Config, poll: Poll)
    ensures var c := Step(cfg, poll);
      && (c.status.Crashed? <==> Available(cfg, poll.tickets) != [] && !Alerted(cfg, poll.tickets))
      && (c.status.Crashed? ==> && HasSeatList(cfg.seatTypes) && c.status.seat in cfg.seatTypes.value
                                && exists k :: && 0 <= k < |poll.tickets| && HasAvailable(poll.tickets[k], cfg.seatTypes)
                                               && c.status.seat !in poll.tickets[k].seats)
    ensures var c := Step(cfg, poll);
      var available := Available(cfg, poll.tickets);
      c.status.Crashed? ==>
        && c.events == [Shown(poll.tickets), Found(available)]
        && exists k :: && 0 <= k < |available| && NoneLacks(available[..k], cfg.seatTypes)
                       && TicketBlock(available[k], cfg.seatTypes) == Failure(c.status.seat)
  {
    if Step(cfg, poll).status.Crashed? {
      FailingSeat(poll.tickets, cfg.seatTypes);
      AlertMessageFirstFailure(Available(cfg, poll.tickets), cfg.seatTypes);
    }
  }

  /** A cycle ends with the wait exactly when the loop goes on polling. */
  lemma StepWaits(cfg: Config, poll: Poll)
    ensures var c := Step(cfg, poll);
      Sleep in c.events <==> c.status == Running
  {
    var available := Available(cfg, poll.tickets);
    if Alerted(cfg, poll.tickets) {
      AlertEventsContent(cfg, poll.tickets, available, AlertMessage(available, cfg.seatTypes).value);
    }
  }

  /** What a run of the loop produced: the events in order, the number of cycles run, and
      the state the loop was left in. */
  datatype Run = Run(events: seq<Event>, cycles: nat, status: Status)

  /** The loop over a trace of polls, for any cycle function: cycles run in order until one
      stops or crashes; the trace running out leaves the loop polling. */
  function Chain(step: Poll -> Cycle, trace: seq<Poll>): (r: Run)
    ensures r.cycles <= |trace|
    ensures forall k :: 0 <= k < r.cycles - 1 ==> step(trace[k]).status == Running
    ensures r.status == Running ==> r.cycles == |trace| && forall k :: 0 <= k < |trace| ==> step(trace[k]).status == Running
    ensures r.status != Running ==> r.cycles > 0 && step(trace[r.cycles - 1]).status == r.status
  {
    if |trace| == 0 then Run([], 0, Running)
    else
      var c := step(trace[0]);
      if c.status != Running then Run(c.events, 1, c.status)
      else
        assert forall k :: 1 <= k < |trace| ==> trace[k] == trace[1..][k - 1];
        var rest := Chain(step, trace[1..]);
        Run(c.events + rest.events, rest.cycles + 1, rest.status)
  }

  /** The events of a sequence of polls under a cycle function, one cycle after the
      other. */
  function CycleEvents(step: Poll -> Cycle, polls: seq<Poll>): seq<Event>
  {
    if |polls| == 0 then [] else step(polls[0]).events + CycleEvents(step, polls[1..])
  }

  /** The run's events are exactly those of the cycles run, in order: nothing of a later
      poll, nothing repeated. */
  lemma {:induction false} ChainEventsInOrder(step: Poll -> Cycle, trace: seq<Poll>)
    ensures Chain(step, trace).events == CycleEvents(step, trace[..Chain(step, trace).cycles])
  {
    if |trace| > 0 {
      var c := step(trace[0]);
      if c.status != Running {
        assert trace[..1] == [trace[0]];
      } else {
        var rest := trace[1..];
        ChainEventsInOrder(step, rest);
        var n := Chain(step, rest).cycles;
        var run := trace[..n + 1];
        assert run[0] == trace[0];
        assert run[1..] == rest[..n];
      }
    }
  }

  /** An event of the run is an event of one of the cycles run, and every event of a cycle
      run is an event of the run. */
  lemma {:induction false} ChainEvents(step: Poll -> Cycle, trace: seq<Poll>, e: Event)
    ensures e in Chain(step, trace).events <==>
      exists k :: 0 <= k < Chain(step, trace).cycles && e in step(trace[k]).events
  {
    if |trace| > 0 && step(trace[0]).status == Running {
      var rest := trace[1..];
      assert forall k :: 1 <= k < |trace| ==> trace[k] == rest[k - 1];
      ChainEvents(step, rest, e);
      var r := Chain(step, trace);
      if e in r.events && e !in step(trace[0]).events {
        var k :| 0 <= k < Chain(step, rest).cycles && e in step(rest[k]).events;
        assert e in step(trace[k + 1]).events;
      }
    }
  }

  /** Running two traces one after the other is running their concatenation, as long as
      the first leaves the loop polling. */
  lemma {:induction false} ChainConcat(step: Poll -> Cycle, a: seq<Poll>, b: seq<Poll>)
    requires Chain(step, a).status == Running
    ensures Chain(step, a + b) == Run(Chain(step, a).events + Chain(step, b).events,
                                      Chain(step, a).cycles + Chain(step, b).cycles,
                                      Chain(step, b).status)
    decreases |a|
  {
    if |a| == 0 {
      assert a + b == b;
    } else {
      var c := step(a[0]);
      assert (a + b)[0] == a[0];
      assert (a + b)[1..] == a[1..] + b;
      ChainConcat(step, a[1..], b);
      var ra := Chain(step, a[1..]);
      var rb := Chain(step, b);
      assert c.events + (ra.events + rb.events) == (c.events + ra.events) + rb.events;
    }
  }

  /** The monitoring loop over a trace of polls. */
  function RunMonitor(cfg: Config, trace: seq<Poll>): (r: Run)
    ensures r.cycles <= |trace|
    ensures r.status == Running ==> r.cycles == |trace|
    ensures r.status != Running ==> r.cycles > 0
  {
    Chain(p => Step(cfg, p), trace)
  }

  /** Running two traces one after the other is running their concatenation, as long as
      the first leaves the loop polling. */
  lemma RunConcat(cfg: Config, a: seq<Poll>, b: seq<Poll>)
    requires RunMonitor(cfg, a).status == Running
    ensures RunMonitor(cfg, a + b) == Run(RunMonitor(cfg, a).events + RunMonitor(cfg, b).events,
                                          RunMonitor(cfg, a).cycles + RunMonitor(cfg, b).cycles,
                                          RunMonitor(cfg, b).status)
  {
    ChainConcat(p => Step(cfg, p), a, b);
  }

  /** While no polled result has an available ticket, the loop keeps polling through the
      whole trace and never alerts or asks the operator. */
  lemma QuietWhileNothingAvailable(cfg: Config, trace: seq<Poll>)
    requires forall k :: 0 <= k < |trace| ==> Available(cfg, trace[k].tickets) == []
    ensures RunMonitor(cfg, trace).status == Running
    ensures RunMonitor(cfg, trace).cycles == |trace|
    ensures Prompt !in RunMonitor(cfg, trace).events && Beep !in RunMonitor(cfg, trace).events
  {
    var step := p => Step(cfg, p);
    forall k | 0 <= k < |trace|
      ensures step(trace[k]).status == Running && Prompt !in step(trace[k]).events && Beep !in step(trace[k]).events
    {
      StepAlerts(cfg, trace[k]);
      StepStops(cfg, trace[k]);
      StepCrashes(cfg, trace[k]);
    }
    ChainEvents(step, trace, Prompt);
    ChainEvents(step, trace, Beep);
  }

  /** Without a seat list, a cycle answered "y" or "Y" goes on polling. */
  lemma YesCycleRuns(cfg: Config, p: Poll)
    requires !HasSeatList(cfg.seatTypes)
    requires p.answer in {"y", "Y"}
    ensures Step(cfg, p).status == Running
  {
    LowerIsY(p.answer);
    NoListNeverFails(Available(cfg, p.tickets), cfg.seatTypes);
    StepStops(cfg, p);
    StepCrashes(cfg, p);
  }

  /** Without a seat list and with every answer "y" or "Y", the loop never stops or
      crashes, however many alerts it raises. */
  lemma YesKeepsPolling(cfg: Config, trace: seq<Poll>)
    requires !HasSeatList(cfg.seatTypes)
    requires forall k :: 0 <= k < |trace| ==> trace[k].answer in {"y", "Y"}
    ensures RunMonitor(cfg, trace).status == Running
    ensures RunMonitor(cfg, trace).cycles == |trace|
  {
    forall k | 0 <= k < |trace| ensures Step(cfg, trace[k]).status == Running {
      YesCycleRuns(cfg, trace[k]);
    }
    assert RunMonitor(cfg, trace) == Chain(p => Step(cfg, p), trace);
  }

  /** A stopped loop stopped at an alert the operator declined: the last cycle run had an
      available ticket, and its answer was not "y" or "Y". */
  lemma StopMeansDeclined(cfg: Config, trace: seq<Poll>)
    requires RunMonitor(cfg, trace).status == Stopped
    ensures var n := RunMonitor(cfg, trace).cycles;
      && 0 < n <= |trace|
      && Available(cfg, trace[n - 1].tickets) != []
      && trace[n - 1].answer != "y" && trace[n - 1].answer != "Y"
  {
    assert RunMonitor(cfg, trace) == Chain(p => Step(cfg, p), trace);
    var n := RunMonitor(cfg, trace).cycles;
    StepStops(cfg, trace[n - 1]);
    LowerIsY(trace[n - 1].answer);
  }

  /** The ticket of the worked examples: train G103 from BJP to SHH, 08:00 to 13:00, with
      `token` as its second-class token and every other seat class not offered. */
  function ExampleTicket(token: string): Ticket
  {
    Ticket("G103", "BJP", "SHH", "08:00", "13:00", "5:00",
      map s | s in SeatNameSet :: if s == "二等座" then token else NotOffered)
  }

  /** Its raw record: 34 fields, the seat tokens in their columns, unused columns empty. */
  function ExampleRecord(token: string): string
  {
    EncodeRecord(ExampleTicket(token))
  }

  /** The example ticket's second-class token is `token` (a helper of the examples). */
  lemma ExampleSecondClass(token: string)
    ensures "二等座" in ExampleTicket(token).seats && ExampleTicket(token).seats["二等座"] == token
  {
  }

  /** The example ticket has the shape the parser produces. */
  lemma ExampleWellFormed(token: string)
    requires token != "" && Bar !in token
    ensures WellFormed(ExampleTicket(token))
  {
    var t := ExampleTicket(token);
    assert IsField(NotOffered);
  }

  /** The example record has 34 fields with the train code in column 3, the departure
      time in column 8 and `token` in the second-class column 30. */
  lemma ExampleFields(token: string)
    requires token != "" && Bar !in token
    ensures var f := Split(ExampleRecord(token), Bar);
      |f| == MinFields && f[TrainCodeColumn] == "G103" && f[DepartureColumn] == "08:00" && f[30] == token
  {
    var t := ExampleTicket(token);
    ExampleWellFormed(token);
    EncodeSplit(t);
    assert Fields(t)[30] == FieldAt(t, 30);
    assert Fields(t)[3] == FieldAt(t, 3) && Fields(t)[8] == FieldAt(t, 8);
  }

  /** The example record parses to the example ticket. */
  lemma ExampleParses(token: string)
    requires token != "" && Bar !in token
    ensures ParseRecord(ExampleRecord(token)) == Some(ExampleTicket(token))
    ensures ParseRecord(ExampleRecord(token)).value.seats["二等座"] == token
  {
    ExampleWellFormed(token);
    ParseEncode(ExampleTicket(token));
    ExampleSecondClass(token);
  }

  /** Querying a result that holds only the example record, without a train filter,
      gives the example ticket. */
  lemma ExampleQuery(token: string)
    requires token != "" && Bar !in token
    ensures ParseTickets([ExampleRecord(token)], None) == [ExampleTicket(token)]
  {
    ExampleWellFormed(token);
    ParseEncodedAlone(ExampleTicket(token));
  }

  /** With a count in the second-class column the example ticket is available without a
      seat list. */
  lemma ExampleAvailable()
    ensures HasAvailable(ExampleTicket("3"), None)
  {
    var t := ExampleTicket("3");
    ExampleSecondClass("3");
    var s := "二等座";
    assert s == EffectiveSeatTypes(None)[0];
    assert s in EffectiveSeatTypes(None) && s in t.seats && IsAvailableToken(t.seats[s]);
  }

  /** The example ticket's alert message can be built without a seat list. */
  lemma ExampleMessage()
    ensures AlertMessage([ExampleTicket("3")], None).Success?
  {
    AlertMessageFails([ExampleTicket("3")], None);
  }

  /** Without a seat list a cycle on the available example ticket alerts and asks; "y"
      keeps the loop polling and "n" stops it. */
  lemma ExampleAlerts(cfg: Config, answer: string)
    requires cfg.seatTypes.None?
    ensures var c := Step(cfg, Poll([ExampleTicket("3")], answer));
      && Prompt in c.events && Beep in c.events
      && (answer == "y" ==> c.status == Running)
      && (answer == "n" ==> c.status == Stopped)
  {
    var t := ExampleTicket("3");
    ExampleAvailable();
    ExampleMessage();
    assert Available(cfg, [t]) == [t];
    assert Alerted(cfg, [t]);
    StepAlerts(cfg, Poll([t], answer));
    StepStops(cfg, Poll([t], answer));
    StepCrashes(cfg, Poll([t], answer));
    LowerIsY(answer);
  }

  /** With every seat class not offered, the example ticket is not available: the cycle
      shows it and goes straight to the wait, without an alert or a question. */
  lemma ExampleStaysQuiet(cfg: Config, answer: string)
    ensures !HasAvailable(ExampleTicket(NotOffered), cfg.seatTypes)
    ensures Step(cfg, Poll([ExampleTicket(NotOffered)], answer)) == Cycle([Shown([ExampleTicket(NotOffered)]), Sleep], Running)
  {
    var t := ExampleTicket(NotOffered);
    assert forall s :: s in t.seats ==> t.seats[s] == NotOffered;
    assert !HasAvailable(t, cfg.seatTypes);
    AvailableTicketsMembers([t], cfg.seatTypes);
    assert Available(cfg, [t]) == [];
  }
}
