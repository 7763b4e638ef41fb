/** Whether a ticket counts as available for the seat classes the operator cares about. */
module Availability {
  import opened Wrappers
  import opened Seqs
  import opened Tickets

  /** Seat classes checked when the operator names none. */
  const DefaultSeatTypes: seq<string> := ["二等座", "一等座", "商务座", "硬卧", "软卧", "硬座"]

  /** Token the provider uses for a sold-out seat class. */
  const SoldOut: string := "无"

  /** The seat classes actually checked: the operator's list, or the defaults when it is
      missing or empty. */
  function EffectiveSeatTypes(seatTypes: Option<seq<string>>): (r: seq<string>)
    ensures |r| > 0
    ensures seatTypes.None? || |seatTypes.value| == 0 ==> r == DefaultSeatTypes
    ensures seatTypes.Some? && |seatTypes.value| > 0 ==> r == seatTypes.value
  {
    if seatTypes.None? || |seatTypes.value| == 0 then DefaultSeatTypes else seatTypes.value
  }

  /** A token other than "not offered" and "sold out": a count or an abundance marker. */
  predicate IsAvailableToken(tok: string)
  {
    tok != NotOffered && tok != SoldOut
  }

  /** The evaluator's loop: the listed seat classes in order, stopping at the first that is
      a key of `seats` with an available token. */
  function AnyAvailable(seats: map<string, string>, names: seq<string>): bool
  {
    if |names| == 0 then false
    else (names[0] in seats && IsAvailableToken(seats[names[0]])) || AnyAvailable(seats, names[1..])
  }

  /** The loop finds an available class exactly when some listed class is a key of
      `seats` with an available token. */
  lemma {:induction false} AnyAvailableMeans(seats: map<string, string>, names: seq<string>)
    ensures AnyAvailable(seats, names) <==> exists s :: s in names && s in seats && IsAvailableToken(seats[s])
  {
    if |names| > 0 {
      AnyAvailableMeans(seats, names[1..]);
      assert names == [names[0]] + names[1..];
    }
  }

  /** The evaluator: true iff some effective seat class is offered on `t` with an available
      token; seat names that are not keys of the seat map are ignored. */
  function HasAvailable(t: Ticket, seatTypes: Option<seq<string>>): (b: bool)
    ensures b <==> exists s :: s in EffectiveSeatTypes(seatTypes) && s in t.seats && IsAvailableToken(t.seats[s])
  {
    AnyAvailableMeans(t.seats, EffectiveSeatTypes(seatTypes));
    AnyAvailable(t.seats, EffectiveSeatTypes(seatTypes))
  }

  /** A missing and an empty seat list both mean the defaults; naming an unknown seat class
      next to known ones changes nothing. */
  lemma SeatListDefaults(t: Ticket, names: seq<string>, unknown: string)
    requires unknown !in t.seats && |names| > 0
    ensures HasAvailable(t, None) == HasAvailable(t, Some([]))
    ensures HasAvailable(t, Some(names + [unknown])) == HasAvailable(t, Some(names))
  {
    var ext := names + [unknown];
    if HasAvailable(t, Some(ext)) {
      var i :| 0 <= i < |ext| && ext[i] in t.seats && IsAvailableToken(t.seats[ext[i]]);
      assert i < |names| && names[i] == ext[i];
    }
    if HasAvailable(t, Some(names)) {
      var i :| 0 <= i < |names| && names[i] in t.seats && IsAvailableToken(t.seats[names[i]]);
      assert ext[i] == names[i];
    }
  }

  /** A ticket whose every checked seat class is "--" or "无" is not available, and one
      with a count in a checked, offered class is. */
  lemma SentinelsMeanUnavailable(t: Ticket, seatTypes: Option<seq<string>>, s: string)
    ensures (forall s' :: s' in EffectiveSeatTypes(seatTypes) && s' in t.seats ==>
               t.seats[s'] in {NotOffered, SoldOut})
            ==> !HasAvailable(t, seatTypes)
    ensures (s in EffectiveSeatTypes(seatTypes) && s in t.seats && t.seats[s] !in {NotOffered, SoldOut})
            ==> HasAvailable(t, seatTypes)
  {
  }

  /** For a parsed ticket the defaults are always keys, so with no seat list the ticket is
      available iff one of the six default classes holds an available token. */
  lemma DefaultsAreKeys(t: Ticket)
    requires WellFormed(t)
    ensures HasAvailable(t, None) <==> exists i :: 0 <= i < |DefaultSeatTypes| && IsAvailableToken(t.seats[DefaultSeatTypes[i]])
  {
    assert forall i :: 0 <= i < |DefaultSeatTypes| ==> DefaultSeatTypes[i] in SeatNameSet;
  }

  /** The tickets of a query result that are available, in their original order. */
  function AvailableTickets(ts: seq<Ticket>, seatTypes: Option<seq<string>>): (r: seq<Ticket>)
    ensures |r| <= |ts|
    ensures forall k :: 0 <= k < |r| ==> HasAvailable(r[k], seatTypes)
  {
    Filter(ts, t => HasAvailable(t, seatTypes))
  }

  /** The available list holds exactly the available tickets of the result, and is empty
      exactly when no ticket is available. */
  lemma AvailableTicketsMembers(ts: seq<Ticket>, seatTypes: Option<seq<string>>)
    ensures forall t :: t in AvailableTickets(ts, seatTypes) <==> t in ts && HasAvailable(t, seatTypes)
    ensures AvailableTickets(ts, seatTypes) == [] <==> forall k :: 0 <= k < |ts| ==> !HasAvailable(ts[k], seatTypes)
  {
    FilterMembers(ts, t => HasAvailable(t, seatTypes));
  }

  /** The available list of a concatenation is the two available lists one after the
      other: the list keeps the result's order and each ticket's multiplicity. */
  lemma AvailableTicketsConcat(a: seq<Ticket>, b: seq<Ticket>, seatTypes: Option<seq<string>>)
    ensures AvailableTickets(a + b, seatTypes) == AvailableTickets(a, seatTypes) + AvailableTickets(b, seatTypes)
  {
    FilterConcat(a, b, t => HasAvailable(t, seatTypes));
  }

  /** A single ticket is listed once when it is available and not at all otherwise. */
  lemma AvailableTicketsOne(t: Ticket, seatTypes: Option<seq<string>>)
    ensures AvailableTickets([t], seatTypes) == if HasAvailable(t, seatTypes) then [t] else []
  {
    assert [t][1..] == [];
  }
}
