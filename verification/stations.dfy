/** The station directory: parsing the provider's station table and resolving a station
    name to its code through the cache, the remote table and a built-in fallback table. */
module Stations {
  import opened Wrappers
  import opened Text
  import opened Seqs

  /** Characters stripped from both ends of the table text. */
  const Junk: set<char> := {'\'', ';', '\n'}

  /** A station record: non-empty, with at least five `|`-separated parts. */
  predicate IsEntry(segment: string)
  {
    segment != "" && |Split(segment, '|')| >= 5
  }

  /** Display name (part 1) and code (part 2) of a station record. */
  function EntryName(segment: string): string
    requires IsEntry(segment)
  {
    Split(segment, '|')[1]
  }

  function EntryCode(segment: string): string
    requires IsEntry(segment)
  {
    Split(segment, '|')[2]
  }

  /** A station record whose display name is `name`. */
  predicate Names(segment: string, name: string)
  {
    IsEntry(segment) && EntryName(segment) == name
  }

  /** Position of the last record named `name`, if any. */
  function LastEntry(segments: seq<string>, name: string): (r: Option<nat>)
    ensures r.Some? ==> && r.value < |segments| && IsEntry(segments[r.value])
                        && EntryName(segments[r.value]) == name
                        && forall j :: r.value < j < |segments| && IsEntry(segments[j]) ==> EntryName(segments[j]) != name
    ensures r.None? ==> forall j :: 0 <= j < |segments| && IsEntry(segments[j]) ==> EntryName(segments[j]) != name
  {
    LastWhere(segments, seg => Names(seg, name))
  }

  /** Name -> code map of the records, in order, a later record overwriting an earlier
      record of the same name: a name is present iff some record carries it, and its code
      is that of the last such record. */
  function BuildTable(segments: seq<string>): (m: map<string, string>)
    ensures forall name :: name in m <==> LastEntry(segments, name).Some?
    ensures forall name :: name in m ==> m[name] == EntryCode(segments[LastEntry(segments, name).value])
  {
    if |segments| == 0 then map[]
    else
      var init := segments[..|segments| - 1];
      var last := segments[|segments| - 1];
      var m0 := BuildTable(init);
      if IsEntry(last) then m0[EntryName(last) := EntryCode(last)] else m0
  }

  /** The station table document: the text between the first and second `=`, stripped of
      quotes, semicolons and newlines at both ends, split into `@`-separated records.
      `None` when the document has no `=` at all. */
  function ParseStationTable(text: string): (r: Option<map<string, string>>)
    ensures r.None? <==> '=' !in text
  {
    var parts := Split(text, '=');
    if |parts| < 2 then None
    else Some(BuildTable(Split(Strip(parts[1], Junk), '@')))
  }

  /** A delimiter-free prefix followed by the delimiter is the first field. */
  lemma FirstField(before: string, d: char, rest: string)
    requires d !in before
    ensures Split(before + [d] + rest, d) == [before] + Split(rest, d)
  {
    SplitAround(before, d, rest);
    SplitNoDelimiter(before, d);
  }

  /** A delimiter-free text followed by nothing or by the delimiter starts the first field. */
  lemma LeadingField(body: string, d: char, after: string)
    requires d !in body
    requires after == [] || after[0] == d
    ensures Split(body + after, d)[0] == body
  {
    SplitNoDelimiter(body, d);
    if after == [] {
      assert body + after == body;
    } else {
      assert body + after == body + [d] + after[1..];
      SplitAround(body, d, after[1..]);
    }
  }

  /** The second `=`-separated field is the text between the first and second `=`. */
  lemma SecondField(before: string, body: string, after: string)
    requires '=' !in before && '=' !in body
    requires after == [] || after[0] == '='
    ensures var parts := Split(before + "=" + body + after, '=');
      |parts| >= 2 && parts[1] == body
  {
    var rest := body + after;
    assert before + "=" + body + after == before + ['='] + rest;
    FirstField(before, '=', rest);
    LeadingField(body, '=', after);
  }

  /** Only the text between the first and the second `=` matters. */
  lemma StationTableSegment(before: string, body: string, after: string)
    requires '=' !in before && '=' !in body
    requires after == [] || after[0] == '='
    ensures ParseStationTable(before + "=" + body + after) == Some(BuildTable(Split(Strip(body, Junk), '@')))
  {
    SecondField(before, body, after);
  }

  /** The built-in table used when neither the cache nor the remote table knows a name. */
  const Fallback: map<string, string> := map[
    "北京" := "BJP", "上海" := "SHH", "广州" := "GZQ", "深圳" := "SZQ",
    "杭州" := "HZH", "南京" := "NJH", "武汉" := "WHN", "西安" := "XAY",
    "成都" := "CDW", "重庆" := "CQW", "天津" := "TJP", "长沙" := "CSQ",
    "郑州" := "ZZF", "济南" := "JNK", "青岛" := "QDK", "大连" := "DLT",
    "沈阳" := "SYT", "哈尔滨" := "HBB", "长春" := "CCT",
    "太子城" := "TZC", "清河" := "QIP"]

  /** The built-in table's answer: a three-letter code for each of its stations, nothing
      for any other name. */
  function FallbackCode(name: string): (r: Option<string>)
    ensures r.Some? <==> name in Fallback
    ensures r.Some? ==> |r.value| == 3
  {
    if name in Fallback then Some(Fallback[name]) else None
  }

  /** Outcome of one resolution: the code found, the cache as it stands afterwards, and
      whether the remote table was requested. */
  datatype Lookup = Lookup(code: Option<string>, cache: Option<map<string, string>>, fetched: bool)

  /** Resolves `name`. `cache` is the cache file's content (`None`: missing or not valid
      JSON); `remote` is the station table document (`None`: the request failed);
      `writeOk` says whether writing the cache file succeeds.
      A readable cache is final: a hit returns its code, a miss goes straight to the
      fallback table. Only a missing or unreadable cache triggers the remote table, which is
      written to the cache before it is consulted; any failure on that path (request, no `=`
      in the document, cache write) falls through to the fallback table. */
  function Resolve(name: string, cache: Option<map<string, string>>, remote: Option<string>, writeOk: bool): (r: Lookup)
    ensures r.fetched <==> cache.None?
    ensures cache.Some? ==> r.cache == cache
    ensures cache.Some? && name in cache.value ==> r.code == Some(cache.value[name])
    ensures cache.Some? && name !in cache.value ==> r.code == FallbackCode(name)
    ensures cache.None? && remote.Some? && ParseStationTable(remote.value).Some? && writeOk ==>
      && r.cache == ParseStationTable(remote.value)
      && r.code == (if name in r.cache.value then Some(r.cache.value[name]) else FallbackCode(name))
    ensures cache.None? && !(remote.Some? && ParseStationTable(remote.value).Some? && writeOk) ==>
      r == Lookup(FallbackCode(name), None, true)
    ensures r.code.None? ==> name !in Fallback
  {
    match cache
    case Some(m) =>
      Lookup(if name in m then Some(m[name]) else FallbackCode(name), cache, false)
    case None =>
      var table := if remote.Some? then ParseStationTable(remote.value) else None;
      if table.Some? && writeOk then
        var m := table.value;
        Lookup(if name in m then Some(m[name]) else FallbackCode(name), Some(m), true)
      else
        Lookup(FallbackCode(name), None, true)
  }

  /** A name known to none of the three sources is unresolved. */
  lemma UnknownEverywhere(name: string, cache: Option<map<string, string>>, remote: Option<string>, writeOk: bool)
    requires cache.Some? ==> name !in cache.value
    requires remote.Some? && ParseStationTable(remote.value).Some? ==> name !in ParseStationTable(remote.value).value
    requires name !in Fallback
    ensures Resolve(name, cache, remote, writeOk).code == None
  {
  }

  /** Resolution is idempotent once the cache exists: asking again returns the same code,
      leaves the cache alone and makes no further remote request, whatever the remote
      side would now answer. */
  lemma ResolveIdempotent(name: string, cache: Option<map<string, string>>, remote: Option<string>, writeOk: bool,
                          remote2: Option<string>, writeOk2: bool)
    requires Resolve(name, cache, remote, writeOk).cache.Some?
    ensures var first := Resolve(name, cache, remote, writeOk);
      Resolve(name, first.cache, remote2, writeOk2) == Lookup(first.code, first.cache, false)
  {
  }

  /** A failed cache write discards the table just fetched: the fallback answers, even for
      a name the table lists. */
  lemma CacheWriteFailureFallsBack(name: string, remote: string)
    ensures Resolve(name, None, Some(remote), false) == Lookup(FallbackCode(name), None, true)
  {
  }

  /** The code of `name` in the first of `sources` that lists it, consulting them in order. */
  function FirstHit(name: string, sources: seq<map<string, string>>): (r: Option<string>)
    ensures r.None? <==> forall j :: 0 <= j < |sources| ==> name !in sources[j]
  {
    if |sources| == 0 then None
    else if name in sources[0] then Some(sources[0][name])
    else
      assert forall j :: 1 <= j < |sources| ==> sources[j] == sources[1..][j - 1];
      FirstHit(name, sources[1..])
  }

  /** The answer comes from the first source that lists the name, and no earlier source
      lists it. */
  lemma {:induction false} FirstHitFirst(name: string, sources: seq<map<string, string>>)
    requires FirstHit(name, sources).Some?
    ensures exists j :: && 0 <= j < |sources| && name in sources[j]
                        && FirstHit(name, sources).value == sources[j][name]
                        && forall l :: 0 <= l < j ==> name !in sources[l]
  {
    if name !in sources[0] {
      var rest := sources[1..];
      FirstHitFirst(name, rest);
      var j :| && 0 <= j < |rest| && name in rest[j] && FirstHit(name, rest).value == rest[j][name]
               && forall l :: 0 <= l < j ==> name !in rest[l];
      assert forall l :: 1 <= l < j + 1 ==> sources[l] == rest[l - 1];
      assert sources[j + 1] == rest[j];
    }
  }

  /** The tables a resolution consults, in order: the readable cache, or else the fetched
      table when it parsed and was written to the cache; the built-in table last. */
  function Consulted(cache: Option<map<string, string>>, remote: Option<string>, writeOk: bool): seq<map<string, string>>
  {
    var first :=
      if cache.Some? then [cache.value]
      else if remote.Some? && ParseStationTable(remote.value).Some? && writeOk then [ParseStationTable(remote.value).value]
      else [];
    first + [Fallback]
  }

  /** Resolution is the first hit among the consulted tables. */
  lemma ResolveConsultsInOrder(name: string, cache: Option<map<string, string>>, remote: Option<string>, writeOk: bool)
    ensures Resolve(name, cache, remote, writeOk).code == FirstHit(name, Consulted(cache, remote, writeOk))
  {
    var c := Consulted(cache, remote, writeOk);
    if |c| == 2 {
      assert c[1..] == [Fallback];
      assert [Fallback][1..] == [];
    } else {
      assert c == [Fallback];
      assert c[1..] == [];
    }
  }
}
