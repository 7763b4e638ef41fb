/** One ticket query: the page-derived strategy first, then the three API endpoints in
    turn, with every network exchange reduced to its outcome. */
module Query {
  import opened Wrappers
  import opened Text
  import opened Tickets

  /** What one ticket-API request came to.
      - RequestError: the request raised or the status was an HTTP error;
      - EmptyBody: the body was blank;
      - NotJson: the body was not valid JSON;
      - WrongShape: valid JSON without `data.result`;
      - Fault: any other exception while reading the body (for instance a result entry that
        is not a string), which the API loop does not catch per endpoint;
      - Result(records): the raw `|`-delimited records under `data.result`. */
  datatype Outcome = RequestError | EmptyBody | NotJson | WrongShape | Fault | Result(records: seq<string>)

  /** A station code usable in a request: present and non-empty. */
  predicate Resolved(code: Option<string>)
  {
    code.Some? && code.value != ""
  }

  /** Markers of the login page. */
  const LoginMarkers: seq<string> := ["请登录", "登录名"]

  /** The query page asks the user to log in. */
  predicate NeedsLogin(page: string)
  {
    Contains(page, LoginMarkers[0]) || Contains(page, LoginMarkers[1])
  }

  /** A page carrying either marker anywhere asks for a login. */
  lemma LoginMarkerAnywhere(before: string, marker: string, after: string)
    requires marker in LoginMarkers
    ensures NeedsLogin(before + marker + after)
  {
    var page := before + marker + after;
    assert page[|before|..|before| + |marker|] == marker;
    assert OccursAt(page, marker, |before|);
  }

  /** The assignment that carries the ticket endpoint's path in the query page. */
  const UrlPrefix: string := "var CLeftTicketUrl = '"

  /** The number of leading characters of `s` that are not a single quote. */
  function NonQuoteRun(s: string): (n: nat)
    ensures n <= |s|
    ensures forall k :: 0 <= k < n ==> s[k] != '\''
    ensures n < |s| ==> s[n] == '\''
  {
    if |s| == 0 || s[0] == '\'' then 0 else 1 + NonQuoteRun(s[1..])
  }

  /** A regular-expression match of `var CLeftTicketUrl = '([^']+)'` at index `i`: the
      prefix, a non-empty run of non-quote characters, then a quote; the run is returned. */
  function UrlAt(s: string, i: nat): (r: Option<string>)
    ensures r.Some? ==> && r.value != [] && '\'' !in r.value
                        && OccursAt(s, UrlPrefix + r.value + "'", i)
  {
    if i + |UrlPrefix| <= |s| && s[i..i + |UrlPrefix|] == UrlPrefix then
      var rest := s[i + |UrlPrefix|..];
      var n := NonQuoteRun(rest);
      if 0 < n < |rest| then
        var u := rest[..n];
        assert s[i..i + |UrlPrefix| + n + 1] == UrlPrefix + u + "'";
        Some(u)
      else None
    else None
  }

  /** Any occurrence of prefix, non-empty quote-free run and quote is a match at its index. */
  lemma UrlAtComplete(s: string, i: nat, u: string)
    requires u != [] && '\'' !in u && OccursAt(s, UrlPrefix + u + "'", i)
    ensures UrlAt(s, i) == Some(u)
  {
    var w := UrlPrefix + u + "'";
    assert s[i..i + |UrlPrefix|] == w[..|UrlPrefix|];
    var rest := s[i + |UrlPrefix|..];
    assert forall k :: 0 <= k < |u| ==> rest[k] == u[k];
    assert rest[|u|] == '\'';
    var n := NonQuoteRun(rest);
    assert n == |u|;
    assert rest[..n] == u;
  }

  /** `re.search` from index `i` on: the leftmost match at or after `i`. */
  function UrlFrom(s: string, i: nat): (r: Option<string>)
    ensures r.Some? ==> r.value != [] && '\'' !in r.value
    decreases |s| - i
  {
    if i > |s| then None
    else if UrlAt(s, i).Some? then UrlAt(s, i)
    else UrlFrom(s, i + 1)
  }

  /** The search finds nothing exactly when no index from `i` on matches, and otherwise
      returns the match at the least such index. */
  lemma {:induction false} UrlFromLeftmost(s: string, i: nat)
    ensures UrlFrom(s, i).None? ==> forall j :: i <= j <= |s| ==> UrlAt(s, j).None?
    ensures UrlFrom(s, i).Some? ==> exists j :: && i <= j <= |s| && UrlAt(s, j) == UrlFrom(s, i)
                                                && forall l :: i <= l < j ==> UrlAt(s, l).None?
    decreases |s| - i
  {
    if i <= |s| {
      var here := UrlAt(s, i);
      if here.None? {
        UrlFromLeftmost(s, i + 1);
        var r := UrlFrom(s, i + 1);
        assert UrlFrom(s, i) == r;
        if r.Some? {
          var j :| && i + 1 <= j <= |s| && UrlAt(s, j) == r
                   && forall l :: i + 1 <= l < j ==> UrlAt(s, l).None?;
          assert forall l :: i <= l < j ==> UrlAt(s, l).None?;
        }
      } else {
        assert UrlFrom(s, i) == here;
      }
    }
  }

  /** The endpoint path captured from the first `var CLeftTicketUrl = '...'` in the page. */
  function ExtractTicketUrl(page: string): (r: Option<string>)
    ensures r.Some? ==> r.value != [] && '\'' !in r.value
  {
    UrlFrom(page, 0)
  }

  /** The extracted path is a non-empty, quote-free run that the page assigns with the
      prefix and a closing quote; no path is extracted exactly when the page holds no such
      assignment at all. */
  lemma ExtractTicketUrlSpec(page: string)
    ensures ExtractTicketUrl(page).Some? ==>
      var u := ExtractTicketUrl(page).value;
      u != [] && '\'' !in u && Contains(page, UrlPrefix + u + "'")
    ensures ExtractTicketUrl(page).None? <==>
      forall u :: u != [] && '\'' !in u ==> !Contains(page, UrlPrefix + u + "'")
  {
    var r := UrlFrom(page, 0);
    UrlFromLeftmost(page, 0);
    if r.Some? {
      var j :| 0 <= j <= |page| && UrlAt(page, j) == r;
      assert OccursAt(page, UrlPrefix + r.value + "'", j);
    } else {
      forall u | u != [] && '\'' !in u ensures !Contains(page, UrlPrefix + u + "'") {
        if Contains(page, UrlPrefix + u + "'") {
          var i :| OccursAt(page, UrlPrefix + u + "'", i);
          UrlAtComplete(page, i, u);
        }
      }
    }
  }

  /** Among several assignments the first one in the page is the one extracted. */
  lemma ExtractFirstAssignment(before: string, u: string, after: string)
    requires u != [] && '\'' !in u
    requires forall j :: 0 <= j < |before| ==> UrlAt(before + UrlPrefix + u + "'" + after, j).None?
    ensures ExtractTicketUrl(before + UrlPrefix + u + "'" + after) == Some(u)
  {
    var page := before + UrlPrefix + u + "'" + after;
    assert page[|before|..|before| + |UrlPrefix + u + "'"|] == UrlPrefix + u + "'";
    UrlAtComplete(page, |before|, u);
    UrlFromSkips(page, 0, |before|);
  }

  /** The search passes over indices without a match. */
  lemma {:induction false} UrlFromSkips(s: string, i: nat, j: nat)
    requires i <= j <= |s|
    requires forall l :: i <= l < j ==> UrlAt(s, l).None?
    ensures UrlFrom(s, i) == UrlFrom(s, j)
    decreases j - i
  {
    if i < j {
      UrlFromSkips(s, i + 1, j);
    }
  }

  /** The page-derived strategy. It needs both codes; then the page request (`None`: it
      failed), the login check, the endpoint extraction and the endpoint's outcome. Every
      failure yields the empty list. */
  function WebStrategy(fromCode: Option<string>, toCode: Option<string>, page: Option<string>,
                       api: Outcome, trains: Option<seq<string>>): (r: seq<Ticket>)
    ensures r != [] ==> && Resolved(fromCode) && Resolved(toCode) && page.Some?
                        && !NeedsLogin(page.value) && ExtractTicketUrl(page.value).Some?
                        && api.Result? && r == ParseTickets(api.records, trains)
    ensures && Resolved(fromCode) && Resolved(toCode) && page.Some?
            && !NeedsLogin(page.value) && ExtractTicketUrl(page.value).Some? && api.Result?
            ==> r == ParseTickets(api.records, trains)
  {
    if !Resolved(fromCode) || !Resolved(toCode) then []
    else if page.None? then []
    else if NeedsLogin(page.value) then []
    else if ExtractTicketUrl(page.value).None? then []
    else match api
      case Result(records) => ParseTickets(records, trains)
      case _ => []
  }

  /** The endpoint outcome lets the API loop go on to the next endpoint. */
  predicate MovesOn(o: Outcome, trains: Option<seq<string>>)
  {
    match o
    case Fault => false
    case Result(records) => ParseTickets(records, trains) == []
    case _ => true
  }

  /** What the API loop returns and how many endpoints it requested. */
  datatype ApiAnswer = ApiAnswer(tickets: seq<Ticket>, tried: nat)

  /** The API loop over the endpoint outcomes in order: the first endpoint whose filtered
      list is non-empty wins; a `Fault` stops the loop with nothing; anything else moves on;
      running out of endpoints yields nothing. */
  function TryEndpoints(outcomes: seq<Outcome>, trains: Option<seq<string>>): (r: ApiAnswer)
    ensures r.tried <= |outcomes|
    ensures forall j :: 0 <= j < r.tried - 1 ==> MovesOn(outcomes[j], trains)
    ensures r.tickets != [] ==> && r.tried > 0 && outcomes[r.tried - 1].Result?
                                && r.tickets == ParseTickets(outcomes[r.tried - 1].records, trains)
    ensures r.tickets == [] ==> || (r.tried == |outcomes| && forall j :: 0 <= j < r.tried ==> MovesOn(outcomes[j], trains))
                                || (r.tried > 0 && outcomes[r.tried - 1] == Fault)
  {
    if |outcomes| == 0 then ApiAnswer([], 0)
    else
      var o := outcomes[0];
      if o == Fault then ApiAnswer([], 1)
      else if !MovesOn(o, trains) then ApiAnswer(ParseTickets(o.records, trains), 1)
      else
        var tail := outcomes[1..];
        var rest := TryEndpoints(tail, trains);
        assert forall j :: 0 <= j < rest.tried ==> MovesOn(outcomes[j], trains) by {
          forall j | 0 <= j < rest.tried ensures MovesOn(outcomes[j], trains) {
            if j > 0 {
              assert outcomes[j] == tail[j - 1];
            }
          }
        }
        assert rest.tried > 0 ==> outcomes[rest.tried] == tail[rest.tried - 1];
        ApiAnswer(rest.tickets, rest.tried + 1)
  }

  /** The outcomes of one query cycle's network exchanges, in the order they happen. */
  datatype Exchanges = Exchanges(
    webFrom: Option<string>,   // station codes as the page strategy resolved them
    webTo: Option<string>,
    page: Option<string>,      // the query page, None when its request failed
    webApi: Outcome,           // the endpoint named by the page
    apiFrom: Option<string>,   // station codes as resolved again for the API strategy
    apiTo: Option<string>,
    query: Outcome,            // leftTicket/query
    queryZ: Outcome,           // leftTicket/queryZ
    queryA: Outcome)           // leftTicket/queryA

  /** The three API endpoints' outcomes, in the order they are tried. */
  function Endpoints(x: Exchanges): seq<Outcome>
  {
    [x.query, x.queryZ, x.queryA]
  }

  /** What a query returns and how many API endpoints it requested. */
  datatype Answer = Answer(tickets: seq<Ticket>, apiRequests: nat)

  /** A whole query: the page strategy's non-empty result as is; otherwise nothing when a
      station code is unresolved, else the API loop. */
  function QueryTickets(x: Exchanges, trains: Option<seq<string>>): (r: Answer)
    ensures r.apiRequests <= 3
    ensures forall k :: 0 <= k < |r.tickets| ==> WellFormed(r.tickets[k]) && Wanted(r.tickets[k].trainCode, trains)
    ensures r.apiRequests > 0 ==> WebStrategy(x.webFrom, x.webTo, x.page, x.webApi, trains) == []
    ensures r.apiRequests > 0 ==> Resolved(x.apiFrom) && Resolved(x.apiTo)
    ensures WebStrategy(x.webFrom, x.webTo, x.page, x.webApi, trains) == [] && Resolved(x.apiFrom) && Resolved(x.apiTo) ==>
      r == Answer(TryEndpoints(Endpoints(x), trains).tickets, TryEndpoints(Endpoints(x), trains).tried)
  {
    var web := WebStrategy(x.webFrom, x.webTo, x.page, x.webApi, trains);
    if web != [] then Answer(web, 0)
    else if !Resolved(x.apiFrom) || !Resolved(x.apiTo) then Answer([], 0)
    else
      var api := TryEndpoints(Endpoints(x), trains);
      Answer(api.tickets, api.tried)
  }

  /** A non-empty page-strategy result is returned whatever the endpoints would answer,
      and no endpoint is requested. */
  lemma WebResultWins(x: Exchanges, trains: Option<seq<string>>, q: Outcome, z: Outcome, a: Outcome)
    requires WebStrategy(x.webFrom, x.webTo, x.page, x.webApi, trains) != []
    ensures QueryTickets(x, trains) == QueryTickets(x.(query := q, queryZ := z, queryA := a), trains)
    ensures QueryTickets(x, trains) == Answer(WebStrategy(x.webFrom, x.webTo, x.page, x.webApi, trains), 0)
  {
  }

  /** After an empty page-strategy result, an unresolved station code ends the query with
      nothing and no endpoint is requested. */
  lemma UnresolvedStops(x: Exchanges, trains: Option<seq<string>>)
    requires WebStrategy(x.webFrom, x.webTo, x.page, x.webApi, trains) == []
    requires !Resolved(x.apiFrom) || !Resolved(x.apiTo)
    ensures QueryTickets(x, trains) == Answer([], 0)
  {
  }

  /** The page asking for a login, or lacking the endpoint assignment, only empties the
      page strategy: with both codes resolved the API endpoints are still tried. */
  lemma LoginPageStillTriesApi(x: Exchanges, trains: Option<seq<string>>)
    requires x.page.Some? && (NeedsLogin(x.page.value) || ExtractTicketUrl(x.page.value).None?)
    requires Resolved(x.apiFrom) && Resolved(x.apiTo)
    ensures QueryTickets(x, trains).apiRequests >= 1
    ensures QueryTickets(x, trains).tickets == TryEndpoints(Endpoints(x), trains).tickets
  {
  }

  /** Endpoint order: with resolved codes and an empty page result, endpoint `i` answers
      the query exactly when every earlier endpoint moved on and `i` yields tickets. */
  lemma {:induction false} FirstNonEmptyEndpointWins(outcomes: seq<Outcome>, trains: Option<seq<string>>, i: nat)
    requires i < |outcomes| && outcomes[i].Result? && ParseTickets(outcomes[i].records, trains) != []
    requires forall j :: 0 <= j < i ==> MovesOn(outcomes[j], trains)
    ensures TryEndpoints(outcomes, trains) == ApiAnswer(ParseTickets(outcomes[i].records, trains), i + 1)
    decreases i
  {
    if i > 0 {
      assert forall j :: 0 <= j < i - 1 ==> outcomes[1..][j] == outcomes[j + 1];
      FirstNonEmptyEndpointWins(outcomes[1..], trains, i - 1);
    }
  }

  /** When every endpoint moves on, every one is requested and the loop returns nothing. */
  lemma {:induction false} EveryEndpointMovesOn(outcomes: seq<Outcome>, trains: Option<seq<string>>)
    requires forall j :: 0 <= j < |outcomes| ==> MovesOn(outcomes[j], trains)
    ensures TryEndpoints(outcomes, trains) == ApiAnswer([], |outcomes|)
    decreases |outcomes|
  {
    if |outcomes| > 0 {
      assert forall j :: 0 <= j < |outcomes| - 1 ==> outcomes[1..][j] == outcomes[j + 1];
      EveryEndpointMovesOn(outcomes[1..], trains);
    }
  }

  /** When every endpoint moves on, all three are requested and the query returns nothing. */
  lemma AllEndpointsFail(x: Exchanges, trains: Option<seq<string>>)
    requires WebStrategy(x.webFrom, x.webTo, x.page, x.webApi, trains) == []
    requires Resolved(x.apiFrom) && Resolved(x.apiTo)
    requires MovesOn(x.query, trains) && MovesOn(x.queryZ, trains) && MovesOn(x.queryA, trains)
    ensures QueryTickets(x, trains) == Answer([], 3)
  {
    EveryEndpointMovesOn(Endpoints(x), trains);
  }

  /** A `Fault` at the first endpoint abandons the later endpoints, even ones that would
      have answered. */
  lemma FaultAbandonsLaterEndpoints(x: Exchanges, trains: Option<seq<string>>)
    requires WebStrategy(x.webFrom, x.webTo, x.page, x.webApi, trains) == []
    requires Resolved(x.apiFrom) && Resolved(x.apiTo)
    requires x.query == Fault
    ensures QueryTickets(x, trains) == Answer([], 1)
  {
  }
}
