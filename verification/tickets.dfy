/** The provider's raw `|`-delimited ticket records and their parsing into ticket records,
    filtered by an optional list of train codes. */
module Tickets {
  import opened Wrappers
  import opened Text
  import opened Seqs

  /** One train's offering: six positional text fields and a seat-name -> token map. */
  datatype Ticket = Ticket(
    trainCode: string,
    fromStation: string,
    toStation: string,
    departureTime: string,
    arrivalTime: string,
    duration: string,
    seats: map<string, string>)

  /** Field separator of a raw record. */
  const Bar: char := '|'

  /** A raw record with fewer fields than this is dropped as malformed. */
  const MinFields: nat := 34

  /** Token stored for a seat class whose raw field is empty ("not offered"). */
  const NotOffered: string := "--"

  /** The ten seat classes, in the order the record's seat map lists them. */
  const SeatNames: seq<string> :=
    ["商务座", "一等座", "二等座", "高级软卧", "软卧", "动卧", "硬卧", "软座", "硬座", "无座"]

  /** The raw field index each seat class is read from, aligned with `SeatNames`. */
  const SeatColumns: seq<nat> := [32, 31, 30, 21, 23, 33, 28, 24, 29, 26]

  /** The same ten names as a set: the keys of every parsed seat map. */
  const SeatNameSet: set<string> := set s | s in SeatNames

  /** Raw field indices of train code, from/to station codes, departure, arrival and duration. */
  const TrainCodeColumn: nat := 3
  const FromColumn: nat := 6
  const ToColumn: nat := 7
  const DepartureColumn: nat := 8
  const ArrivalColumn: nat := 9
  const DurationColumn: nat := 10

  /** Python's `field or '--'`. */
  function OrNotOffered(field: string): (r: string)
    ensures r != ""
    ensures field != "" ==> r == field
  {
    if field == "" then NotOffered else field
  }

  /** The seat names are pairwise distinct and every seat column lies inside a record
      of `MinFields` fields. */
  lemma SeatTables()
    ensures |SeatNames| == |SeatColumns| == 10
    ensures forall i, j :: 0 <= i < j < |SeatNames| ==> SeatNames[i] != SeatNames[j]
    ensures forall i :: 0 <= i < |SeatColumns| ==> SeatColumns[i] < MinFields
  {
  }

  /** Columns that all lie inside the record `f`, one per name. */
  predicate Aligned(f: seq<string>, names: seq<string>, cols: seq<nat>)
  {
    |names| == |cols| && forall j :: 0 <= j < |cols| ==> cols[j] < |f|
  }

  /** The dictionary whose key `names[j]` holds column `cols[j]` of `f`, a later key
      overwriting an earlier equal one. */
  function Entries(f: seq<string>, names: seq<string>, cols: seq<nat>): map<string, string>
    requires Aligned(f, names, cols)
    decreases |names|
  {
    if |names| == 0 then map[]
    else Entries(f, names[1..], cols[1..])[names[0] := OrNotOffered(f[cols[0]])]
  }

  /** The keys are the names, and each value is one of the columns. */
  lemma {:induction false} EntriesKeys(f: seq<string>, names: seq<string>, cols: seq<nat>)
    requires Aligned(f, names, cols)
    ensures Entries(f, names, cols).Keys == set s | s in names
    ensures forall s :: s in Entries(f, names, cols) ==>
      exists j :: 0 <= j < |cols| && cols[j] < |f| && Entries(f, names, cols)[s] == OrNotOffered(f[cols[j]])
    decreases |names|
  {
    if |names| > 0 {
      EntriesKeys(f, names[1..], cols[1..]);
      assert names == [names[0]] + names[1..];
      var m := Entries(f, names, cols);
      forall s | s in m
        ensures exists j :: 0 <= j < |cols| && cols[j] < |f| && m[s] == OrNotOffered(f[cols[j]])
      {
        if s != names[0] {
          var j :| 0 <= j < |cols[1..]| && cols[1..][j] < |f| && m[s] == OrNotOffered(f[cols[1..][j]]);
          assert cols[j + 1] == cols[1..][j];
        }
      }
    }
  }

  /** Values read from separator-free fields are non-empty and separator-free. */
  lemma EntriesClean(f: seq<string>, names: seq<string>, cols: seq<nat>)
    requires Aligned(f, names, cols)
    requires forall k :: 0 <= k < |f| ==> IsField(f[k])
    ensures forall s :: s in Entries(f, names, cols) ==>
      Entries(f, names, cols)[s] != "" && IsField(Entries(f, names, cols)[s])
  {
    EntriesKeys(f, names, cols);
    assert IsField(NotOffered);
  }

  /** With distinct names, key `names[i]` holds column `cols[i]`. */
  lemma {:induction false} EntriesColumn(f: seq<string>, names: seq<string>, cols: seq<nat>, i: nat)
    requires Aligned(f, names, cols) && i < |names|
    requires forall j, k :: 0 <= j < k < |names| ==> names[j] != names[k]
    ensures names[i] in Entries(f, names, cols)
    ensures Entries(f, names, cols)[names[i]] == OrNotOffered(f[cols[i]])
    decreases |names|
  {
    if i > 0 {
      EntriesColumn(f, names[1..], cols[1..], i - 1);
      assert names[1..][i - 1] == names[i] && cols[1..][i - 1] == cols[i];
      assert names[0] != names[i];
    }
  }

  /** The seat map built from the fields of a long-enough record: each seat class reads
      its own column, an empty field meaning "not offered". */
  function SeatMap(f: seq<string>): map<string, string>
    requires |f| >= MinFields
  {
    SeatTables();
    Entries(f, SeatNames, SeatColumns)
  }

  /** The seat map has exactly the ten seat classes as keys. */
  lemma SeatMapKeySet(f: seq<string>)
    requires |f| >= MinFields
    ensures SeatMap(f).Keys == SeatNameSet
  {
    SeatTables();
    EntriesKeys(f, SeatNames, SeatColumns);
  }

  /** The seat map has exactly the ten seat classes as keys and stores only non-empty
      tokens that are free of the separator when the fields are. */
  lemma SeatMapKeys(f: seq<string>)
    requires |f| >= MinFields
    requires forall k :: 0 <= k < |f| ==> IsField(f[k])
    ensures SeatMap(f).Keys == SeatNameSet
    ensures forall s :: s in SeatMap(f) ==> SeatMap(f)[s] != "" && IsField(SeatMap(f)[s])
  {
    SeatMapKeySet(f);
    SeatTables();
    EntriesClean(f, SeatNames, SeatColumns);
  }

  /** The seat map reads seat class `i` from its column. */
  lemma SeatMapColumn(f: seq<string>, i: nat)
    requires |f| >= MinFields && i < |SeatNames|
    ensures SeatColumns[i] < |f| && SeatNames[i] in SeatMap(f)
    ensures SeatMap(f)[SeatNames[i]] == OrNotOffered(f[SeatColumns[i]])
  {
    SeatTables();
    EntriesColumn(f, SeatNames, SeatColumns, i);
  }

  /** A text field as the parser can produce it: free of the separator. */
  predicate IsField(s: string)
  {
    Bar !in s
  }

  /** A ticket record of the shape the parser produces. */
  predicate WellFormed(t: Ticket)
  {
    && IsField(t.trainCode) && IsField(t.fromStation) && IsField(t.toStation)
    && IsField(t.departureTime) && IsField(t.arrivalTime) && IsField(t.duration)
    && t.seats.Keys == SeatNameSet
    && forall s :: s in t.seats ==> t.seats[s] != "" && IsField(t.seats[s])
  }

  /** One raw record: `None` when it has fewer than 34 fields (fewer than 33 separators),
      otherwise a well-formed ticket read from the fixed columns. */
  function ParseRecord(raw: string): (r: Option<Ticket>)
    ensures r.None? <==> Count(raw, Bar) < MinFields - 1
    ensures r.Some? ==> WellFormed(r.value)
  {
    var f := Split(raw, Bar);
    if |f| < MinFields then None
    else
      SeatMapKeys(f);
      var t := Ticket(f[3], f[6], f[7], f[8], f[9], f[10], SeatMap(f));
      assert IsField(f[3]) && IsField(f[6]) && IsField(f[7]);
      assert IsField(f[8]) && IsField(f[9]) && IsField(f[10]);
      Some(t)
  }

  /** Every field of a parsed record comes from its documented column. */
  lemma ParseRecordColumns(raw: string)
    requires ParseRecord(raw).Some?
    ensures var f := Split(raw, Bar); var t := ParseRecord(raw).value;
      && t.trainCode == f[TrainCodeColumn]
      && t.fromStation == f[FromColumn] && t.toStation == f[ToColumn]
      && t.departureTime == f[DepartureColumn] && t.arrivalTime == f[ArrivalColumn]
      && t.duration == f[DurationColumn]
      && forall i :: 0 <= i < |SeatNames| ==>
        SeatColumns[i] < |f| && t.seats[SeatNames[i]] == OrNotOffered(f[SeatColumns[i]])
  {
    var f := Split(raw, Bar);
    forall i | 0 <= i < |SeatNames|
      ensures SeatColumns[i] < |f| && ParseRecord(raw).value.seats[SeatNames[i]] == OrNotOffered(f[SeatColumns[i]])
    {
      SeatMapColumn(f, i);
    }
  }

  /** The token of seat class `name` in `t`, "" when `t` has no such seat. */
  function SeatOf(t: Ticket, name: string): string
  {
    if name in t.seats then t.seats[name] else ""
  }

  /** The raw field at column `k` that carries part of ticket `t`, "" for unused columns. */
  function FieldAt(t: Ticket, k: int): string
  {
    if k == 3 then t.trainCode
    else if k == 6 then t.fromStation
    else if k == 7 then t.toStation
    else if k == 8 then t.departureTime
    else if k == 9 then t.arrivalTime
    else if k == 10 then t.duration
    else if k == 32 then SeatOf(t, "商务座")
    else if k == 31 then SeatOf(t, "一等座")
    else if k == 30 then SeatOf(t, "二等座")
    else if k == 21 then SeatOf(t, "高级软卧")
    else if k == 23 then SeatOf(t, "软卧")
    else if k == 33 then SeatOf(t, "动卧")
    else if k == 28 then SeatOf(t, "硬卧")
    else if k == 24 then SeatOf(t, "软座")
    else if k == 29 then SeatOf(t, "硬座")
    else if k == 26 then SeatOf(t, "无座")
    else ""
  }

  /** The 34 raw fields of a ticket. */
  function Fields(t: Ticket): (f: seq<string>)
    ensures |f| == MinFields
    ensures forall k :: 0 <= k < |f| ==> f[k] == FieldAt(t, k)
  {
    seq(MinFields, k => FieldAt(t, k))
  }

  /** A raw provider record carrying ticket `t` (unused columns left empty). */
  function EncodeRecord(t: Ticket): string
  {
    Join(Fields(t), Bar)
  }

  /** The fields of a well-formed ticket are free of the separator. */
  lemma FieldsClean(t: Ticket)
    requires WellFormed(t)
    ensures forall k :: 0 <= k < |Fields(t)| ==> IsField(Fields(t)[k])
  {
    var f := Fields(t);
    forall k | 0 <= k < |f| ensures IsField(f[k]) {
      assert f[k] == FieldAt(t, k);
    }
  }

  /** The seat columns of a ticket's fields carry its seat tokens. */
  lemma FieldsAtSeatColumns(t: Ticket)
    ensures forall i :: 0 <= i < |SeatColumns| ==> FieldAt(t, SeatColumns[i]) == SeatOf(t, SeatNames[i])
  {
  }

  /** Every seat class listed in `seats` with the token of its column of `f` has that
      token in the seat map of `f`. */
  lemma SeatMapAgrees(f: seq<string>, seats: map<string, string>)
    requires |f| >= MinFields
    requires forall i :: 0 <= i < |SeatNames| ==>
      SeatColumns[i] < |f| && SeatNames[i] in seats && seats[SeatNames[i]] == OrNotOffered(f[SeatColumns[i]])
    ensures forall s :: s in seats && s in SeatNameSet ==> s in SeatMap(f) && SeatMap(f)[s] == seats[s]
  {
    var m := SeatMap(f);
    forall s | s in seats && s in SeatNameSet ensures s in m && m[s] == seats[s] {
      var i :| 0 <= i < |SeatNames| && SeatNames[i] == s;
      SeatMapColumn(f, i);
    }
  }

  /** A map with the ten seat classes as keys whose every class holds the token of its
      column of `f` is the seat map of `f`. */
  lemma SeatMapIs(f: seq<string>, seats: map<string, string>)
    requires |f| >= MinFields
    requires seats.Keys == SeatNameSet
    requires forall i :: 0 <= i < |SeatNames| ==>
      SeatColumns[i] < |f| && SeatNames[i] in seats && seats[SeatNames[i]] == OrNotOffered(f[SeatColumns[i]])
    ensures SeatMap(f) == seats
  {
    SeatMapKeySet(f);
    SeatMapAgrees(f, seats);
    SameEntries(SeatMap(f), seats);
  }

  /** Reading the seat columns of a well-formed ticket's fields gives its seat map back. */
  lemma SeatMapOfFields(t: Ticket)
    requires WellFormed(t)
    ensures SeatMap(Fields(t)) == t.seats
  {
    var f := Fields(t);
    SeatTables();
    FieldsAtSeatColumns(t);
    forall i | 0 <= i < |SeatNames|
      ensures SeatColumns[i] < |f| && SeatNames[i] in t.seats && t.seats[SeatNames[i]] == OrNotOffered(f[SeatColumns[i]])
    {
      assert SeatNames[i] in SeatNameSet;
      assert f[SeatColumns[i]] == FieldAt(t, SeatColumns[i]);
    }
    SeatMapIs(f, t.seats);
  }

  /** The encoding of a well-formed ticket splits back into its fields. */
  lemma EncodeSplit(t: Ticket)
    requires WellFormed(t)
    ensures Split(EncodeRecord(t), Bar) == Fields(t)
  {
    FieldsClean(t);
    SplitJoin(Fields(t), Bar);
  }

  /** Parsing the encoding of a well-formed ticket gives the ticket back. */
  lemma {:induction false} ParseEncode(t: Ticket)
    requires WellFormed(t)
    ensures ParseRecord(EncodeRecord(t)) == Some(t)
  {
    var f := Fields(t);
    EncodeSplit(t);
    SeatMapOfFields(t);
    assert f[3] == t.trainCode && f[6] == t.fromStation && f[7] == t.toStation;
    assert f[8] == t.departureTime && f[9] == t.arrivalTime && f[10] == t.duration;
  }

  /** A train code passes the filter: no filter (None or an empty list), or listed in it. */
  predicate Wanted(code: string, trains: Option<seq<string>>)
  {
    trains.None? || |trains.value| == 0 || code in trains.value
  }

  /** `raw` parses and its train passes the filter. */
  predicate Kept(raw: string, trains: Option<seq<string>>)
  {
    ParseRecord(raw).Some? && Wanted(ParseRecord(raw).value.trainCode, trains)
  }

  /** What one raw record contributes: its ticket when kept, nothing otherwise. */
  function Admit(raw: string, trains: Option<seq<string>>): (r: Option<Ticket>)
    ensures r.Some? <==> Kept(raw, trains)
    ensures r.Some? <==> Count(raw, Bar) >= MinFields - 1 && Wanted(Split(raw, Bar)[TrainCodeColumn], trains)
    ensures r.Some? ==> r == ParseRecord(raw)
  {
    if Kept(raw, trains) then ParseRecord(raw) else None
  }

  /** The records of a provider result, in order, dropping those with fewer than 34
      fields and, under a non-empty filter, those whose train code it does not list. */
  function ParseTickets(raws: seq<string>, trains: Option<seq<string>>): (r: seq<Ticket>)
    ensures |r| <= |raws|
    ensures forall k :: 0 <= k < |r| ==> WellFormed(r[k]) && Wanted(r[k].trainCode, trains)
  {
    var f := raw => Admit(raw, trains);
    FilterMapAll(raws, f, t => WellFormed(t) && Wanted(t.trainCode, trains));
    FilterMap(raws, f)
  }

  /** Parsing distributes over concatenation: each part keeps its own order. */
  lemma ParseTicketsConcat(a: seq<string>, b: seq<string>, trains: Option<seq<string>>)
    ensures ParseTickets(a + b, trains) == ParseTickets(a, trains) + ParseTickets(b, trains)
  {
    FilterMapConcat(a, b, raw => Admit(raw, trains));
  }

  /** A record with fewer than 34 fields is skipped without affecting the others. */
  lemma ShortRecordSkipped(before: seq<string>, raw: string, after: seq<string>, trains: Option<seq<string>>)
    requires Count(raw, Bar) < MinFields - 1
    ensures ParseTickets(before + [raw] + after, trains) == ParseTickets(before + after, trains)
  {
    FilterMapSkip(before, raw, after, r => Admit(r, trains));
  }

  /** A result holding only the encoding of a well-formed ticket, queried without a
      filter, gives that ticket. */
  lemma ParseEncodedAlone(t: Ticket)
    requires WellFormed(t)
    ensures ParseTickets([EncodeRecord(t)], None) == [t]
  {
    var raw := EncodeRecord(t);
    ParseEncode(t);
    FilterMapOne(raw, r => Admit(r, None));
  }

  /** The result is exactly the kept records, in input order: `idx` lists the input
      positions of the returned tickets, strictly increasing, and a position appears in
      `idx` precisely when its record is kept. */
  lemma ParseTicketsSelects(raws: seq<string>, trains: Option<seq<string>>) returns (idx: seq<nat>)
    ensures |idx| == |ParseTickets(raws, trains)|
    ensures forall k :: 0 <= k < |idx| ==>
      idx[k] < |raws| && ParseRecord(raws[idx[k]]) == Some(ParseTickets(raws, trains)[k])
    ensures forall k, l :: 0 <= k < l < |idx| ==> idx[k] < idx[l]
    ensures forall j :: 0 <= j < |raws| ==> (Kept(raws[j], trains) <==> j in idx)
  {
    idx := FilterMapSelects(raws, raw => Admit(raw, trains));
  }

  /** Every well-formed record whose train passes the filter appears in the result. */
  lemma ParseTicketsComplete(raws: seq<string>, trains: Option<seq<string>>, j: nat)
    requires j < |raws| && Kept(raws[j], trains)
    ensures ParseRecord(raws[j]).value in ParseTickets(raws, trains)
  {
    var idx := ParseTicketsSelects(raws, trains);
    var k :| 0 <= k < |idx| && idx[k] == j;
  }

  /** Does the ticket run a listed train? */
  predicate RunsListed(t: Ticket, codes: seq<string>)
  {
    t.trainCode in codes
  }

  /** Per record: the empty filter admits what no filter admits, and a non-empty filter
      admits what no filter admits and the filter lists. */
  lemma AdmitFiltered(raw: string, codes: seq<string>)
    ensures Admit(raw, Some([])) == Admit(raw, None)
    ensures |codes| > 0 ==>
      var all := Admit(raw, None);
      Admit(raw, Some(codes)) == (if all.Some? && RunsListed(all.value, codes) then all else None)
  {
  }

  /** Without a filter (None or an empty list) every well-formed record is returned;
      a non-empty filter keeps exactly the unfiltered tickets whose code it lists. */
  lemma TrainFilter(raws: seq<string>, codes: seq<string>)
    ensures ParseTickets(raws, Some([])) == ParseTickets(raws, None)
    ensures |codes| > 0 ==>
      ParseTickets(raws, Some(codes)) == Filter(ParseTickets(raws, None), t => RunsListed(t, codes))
  {
    forall j | 0 <= j < |raws| {
      AdmitFiltered(raws[j], codes);
    }
    var none := raw => Admit(raw, None);
    FilterMapSame(raws, raw => Admit(raw, Some([])), none);
    if |codes| > 0 {
      FilterMapRefine(raws, raw => Admit(raw, Some(codes)), none, t => RunsListed(t, codes));
    }
  }

  /** The number of raw records with at least 34 fields. */
  function LongRecords(raws: seq<string>): nat
  {
    CountWhere(raws, raw => Count(raw, Bar) >= MinFields - 1)
  }

  /** Without a filter, one ticket is returned per record with at least 34 fields. */
  lemma UnfilteredCount(raws: seq<string>)
    ensures |ParseTickets(raws, None)| == LongRecords(raws)
  {
    FilterMapCount(raws, raw => Admit(raw, None), raw => Count(raw, Bar) >= MinFields - 1);
  }
}
