/**
 * The Google geocoding service's `lookup`: building the address line and
 * request URL, the bounded retry on `OVER_QUERY_LIMIT`, and the
 * classification of the final reply into coordinates, "disable this
 * service", or no result.
 *
 * The collaborators the service calls but does not define are fields of
 * `Services`; the HTTP replies are an input sequence.
 */
module Geocode {
  import opened PhpStrings
  import opened UrlEncoding
  import opened Countries

  /** A position as read from `results[0].geometry.location`; floating point is not modelled. */
  datatype LatLng = LatLng(lat: real, long: real)

  /** The arguments of `lookup`. */
  datatype Address = Address(street: Bytes, city: Bytes, state: Bytes, zip: Bytes, country: Bytes)

  /** static_info_tables' `formatAddress(delimiter, street, city, zip, subdivision, country)`. */
  type Formatter = (Bytes, Bytes, Bytes, Bytes, Bytes, Bytes) -> Bytes

  /**
   * The environment of one lookup: whether static_info_tables is loaded, its
   * country table, the framework's integer test, the address formatter, and
   * the API-key decoration of the URL.
   */
  datatype Services = Services(
    staticInfoLoaded: bool,
    countries: seq<CountryRecord>,
    isInt: Bytes -> bool,
    format: Formatter,
    addKey: Bytes -> Bytes)

  /** What is sent to the geocoder: the trimmed address line and the region hint. */
  datatype Query = Query(address: Bytes, region: Bytes)

  /** The fixed US-style address line used when no formatted address is available. */
  function DefaultAddress(a: Address, country: Bytes): Bytes {
    a.street + " " + a.city + ", " + a.state + " " + a.zip + ", " + country
  }

  /** The address line before trimming: the formatter's output when truthy, the default line otherwise. */
  function AddressLine(a: Address, country: Bytes, formatted: Bytes): (line: Bytes)
    ensures PhpTruthy(formatted) ==> line == formatted
    ensures !PhpTruthy(formatted) ==> line == DefaultAddress(a, country)
  {
    if PhpTruthy(formatted) then formatted else DefaultAddress(a, country)
  }

  /**
   * `lookup`'s address step: resolve the country when static_info_tables
   * is loaded, format the address, fall back to the default line, and trim.
   * The region hint is only ever a top-level domain from the country table,
   * and the address is already trimmed.
   */
  function PrepareQuery(svc: Services, a: Address): (q: Query)
    ensures !svc.staticInfoLoaded ==> q == Query(Trim(DefaultAddress(a, a.country)), [])
    ensures q.region != [] ==> svc.staticInfoLoaded && exists r :: r in svc.countries && r.tldomain == q.region
    ensures Trim(q.address) == q.address
  {
    if svc.staticInfoLoaded then
      var res := ResolveCountry(svc.countries, svc.isInt, a.country);
      var formatted := svc.format([','], a.street, a.city, a.zip, a.state, res.country);
      var line := AddressLine(a, res.country, formatted);
      TrimIdempotent(line);
      Query(Trim(line), res.region)
    else
      TrimIdempotent(DefaultAddress(a, a.country));
      Query(Trim(DefaultAddress(a, a.country)), [])
  }

  /**
   * With static_info_tables loaded and a token that identifies exactly one
   * record, the formatter is asked with the record's local short name, the
   * region is the record's top-level domain, and the default line (if
   * needed) carries the local short name as well.
   */
  lemma {:induction false} UniqueCountryLocalises(svc: Services, a: Address, i: nat)
    requires svc.staticInfoLoaded && a.country != [] && i < |svc.countries|
    requires Matches(TokenFilter(svc.countries, svc.isInt, a.country), svc.countries[i])
    requires forall j :: 0 <= j < |svc.countries| && j != i ==>
               !Matches(TokenFilter(svc.countries, svc.isInt, a.country), svc.countries[j])
    ensures var name := svc.countries[i].shortLocal;
            PrepareQuery(svc, a) == Query(
              Trim(AddressLine(a, name, svc.format([','], a.street, a.city, a.zip, a.state, name))),
              svc.countries[i].tldomain)
  {
    ResolveUnique(svc.countries, svc.isInt, a.country, i);
  }

  /** With no matching record, the raw token goes to the formatter and no region is set. */
  lemma {:induction false} UnmatchedCountryKeepsToken(svc: Services, a: Address)
    requires svc.staticInfoLoaded && a.country != []
    requires forall j :: 0 <= j < |svc.countries| ==>
               !Matches(TokenFilter(svc.countries, svc.isInt, a.country), svc.countries[j])
    ensures PrepareQuery(svc, a) == Query(
              Trim(AddressLine(a, a.country, svc.format([','], a.street, a.city, a.zip, a.state, a.country))),
              [])
  {
    ResolveNoMatch(svc.countries, svc.isInt, a.country);
  }

  /** With two matching records, the raw token goes to the formatter and no region is set. */
  lemma {:induction false} AmbiguousCountryKeepsToken(svc: Services, a: Address, i: nat, j: nat)
    requires svc.staticInfoLoaded && a.country != [] && i < j < |svc.countries|
    requires Matches(TokenFilter(svc.countries, svc.isInt, a.country), svc.countries[i])
    requires Matches(TokenFilter(svc.countries, svc.isInt, a.country), svc.countries[j])
    ensures PrepareQuery(svc, a) == Query(
              Trim(AddressLine(a, a.country, svc.format([','], a.street, a.city, a.zip, a.state, a.country))),
              [])
  {
    ResolveAmbiguous(svc.countries, svc.isInt, a.country, i, j);
  }

  // Written in pieces: the verifier checks every character of a `Bytes`
  // literal against the byte range, which is cheaper on short literals.
  const Endpoint: Bytes := "https://maps." + "googleapis.com" + "/maps/api/" + "geocode/json" + "?address="
  const RegionParam: Bytes := "&region="

  /** The part of the URL after the endpoint: the encoded address and, for a truthy region, `&region=`. */
  function QueryString(q: Query): Bytes {
    UrlEncode(q.address) + (if PhpTruthy(q.region) then RegionParam + UrlEncode(q.region) else [])
  }

  /**
   * `lookup`'s URL step: the request URL before the API key is added. It reads
   * back as the address and, exactly when the region is truthy, the region.
   */
  function BuildUrl(q: Query): (url: Bytes)
    ensures SplitUrl(url) == Some(Query(q.address, if PhpTruthy(q.region) then q.region else []))
    ensures Contains(url, RegionParam) <==> PhpTruthy(q.region)
  {
    EndpointHasNoAmpersand();
    ContainsAfterPrefix(Endpoint, QueryString(q), RegionParam);
    QueryStringRegionIff(q);
    QueryStringRoundTrip(q);
    assert (Endpoint + QueryString(q))[|Endpoint|..] == QueryString(q);
    Endpoint + QueryString(q)
  }

  /** Reads a query string of the shape `QueryString` produces back into its address and region. */
  function ParseQueryString(rest: Bytes): Option<Query> {
    var k := IndexOf(rest, '&');
    if k == |rest| then Some(Query(UrlDecode(rest), []))
    else if StartsWith(rest[k..], RegionParam) then
      Some(Query(UrlDecode(rest[..k]), UrlDecode(rest[k + |RegionParam|..])))
    else None
  }

  /** Reads a request URL back into its address and region. */
  function SplitUrl(url: Bytes): Option<Query> {
    if StartsWith(url, Endpoint) then ParseQueryString(url[|Endpoint|..]) else None
  }

  lemma EndpointHasNoAmpersand()
    ensures '&' !in Endpoint
  {
    assert forall i :: 0 <= i < |Endpoint| ==> Endpoint[i] != '&';
  }

  /** A query string without `&` is all address. */
  lemma ParseWithoutRegion(e: Bytes)
    requires '&' !in e
    ensures ParseQueryString(e) == Some(Query(UrlDecode(e), []))
  {
  }

  /** In a query string whose address part has no `&`, the first `&` starts the region parameter. */
  lemma ParseWithRegion(e: Bytes, t: Bytes)
    requires '&' !in e
    ensures ParseQueryString(e + RegionParam + t) == Some(Query(UrlDecode(e), UrlDecode(t)))
  {
    var tail := RegionParam + t;
    var rest := e + tail;
    assert rest == e + RegionParam + t;
    IndexOfJoin(e, tail, '&');
    assert rest[..|e|] == e;
    assert rest[|e|..] == tail;
    assert tail[..|RegionParam|] == RegionParam;
    assert tail[|RegionParam|..] == t;
    assert rest[|e| + |RegionParam|..] == t;
  }

  /** The query string determines the address line and the region it was built from. */
  lemma {:induction false} QueryStringRoundTrip(q: Query)
    ensures ParseQueryString(QueryString(q)) == Some(Query(q.address, if PhpTruthy(q.region) then q.region else []))
  {
    var encoded := UrlEncode(q.address);
    DecodeEncode(q.address);
    if PhpTruthy(q.region) {
      assert QueryString(q) == encoded + RegionParam + UrlEncode(q.region);
      ParseWithRegion(encoded, UrlEncode(q.region));
      DecodeEncode(q.region);
    } else {
      assert QueryString(q) == encoded;
      ParseWithoutRegion(encoded);
    }
  }

  /** The query string carries a `&region=` parameter if and only if the region is truthy. */
  lemma {:induction false} QueryStringRegionIff(q: Query)
    ensures Contains(QueryString(q), RegionParam) <==> PhpTruthy(q.region)
  {
    var encoded := UrlEncode(q.address);
    if PhpTruthy(q.region) {
      ContainsInfix(encoded, RegionParam, UrlEncode(q.region));
      assert QueryString(q) == encoded + RegionParam + UrlEncode(q.region);
    } else {
      assert QueryString(q) == encoded;
      NotContainsWithoutFirst(encoded, RegionParam);
    }
  }

  /**
   * With static_info_tables loaded and exactly one matching record whose
   * top-level domain is truthy, the URL carries `&region=` with that domain.
   */
  lemma {:induction false} UniqueCountryAddsRegion(svc: Services, a: Address, i: nat)
    requires svc.staticInfoLoaded && a.country != [] && i < |svc.countries|
    requires Matches(TokenFilter(svc.countries, svc.isInt, a.country), svc.countries[i])
    requires forall j :: 0 <= j < |svc.countries| && j != i ==>
               !Matches(TokenFilter(svc.countries, svc.isInt, a.country), svc.countries[j])
    requires PhpTruthy(svc.countries[i].tldomain)
    ensures Contains(BuildUrl(PrepareQuery(svc, a)), RegionParam)
    ensures SplitUrl(BuildUrl(PrepareQuery(svc, a))).Some?
    ensures SplitUrl(BuildUrl(PrepareQuery(svc, a))).value.region == svc.countries[i].tldomain
  {
    UniqueCountryLocalises(svc, a, i);
  }

  /** One decoded reply of the geocoding endpoint; `NoReply` is a failed request or undecodable JSON. */
  datatype Reply = NoReply | Reply(status: Bytes, location: Option<LatLng>)

  const MaxAttempts: nat := 3
  const StatusOk: Bytes := "OK"
  const StatusOverQueryLimit: Bytes := "OVER_QUERY_LIMIT"
  const StatusRequestDenied: Bytes := "REQUEST_DENIED"
  const StatusInvalidRequest: Bytes := "INVALID_REQUEST"

  predicate HasStatus(reply: Reply, status: Bytes) {
    reply.Reply? && reply.status == status
  }

  predicate IsOverLimit(reply: Reply) {
    HasStatus(reply, StatusOverQueryLimit)
  }

  /** How many replies in a row, from the first, are `OVER_QUERY_LIMIT`. */
  function LeadingOverLimit(replies: seq<Reply>): (k: nat)
    ensures k <= |replies|
    ensures forall i :: 0 <= i < k ==> IsOverLimit(replies[i])
    ensures k < |replies| ==> !IsOverLimit(replies[k])
  {
    if replies != [] && IsOverLimit(replies[0]) then 1 + LeadingOverLimit(replies[1..]) else 0
  }

  /** The number of requests the retry loop makes: min(3, k + 1) for k leading rate-limit replies. */
  function RequestCount(replies: seq<Reply>): nat {
    var k := LeadingOverLimit(replies);
    if k + 1 < MaxAttempts then k + 1 else MaxAttempts
  }

  /**
   * `lookup`'s retry loop: request, sleep after an `OVER_QUERY_LIMIT` reply, and
   * repeat while the reply is `OVER_QUERY_LIMIT` and fewer than three
   * requests were made. `replies[i]` answers the (i+1)-th request.
   */
  method RequestWithRetry(replies: seq<Reply>) returns (requests: nat, sleeps: nat, last: Reply)
    requires |replies| >= MaxAttempts
    ensures 1 <= requests <= MaxAttempts
    ensures requests == RequestCount(replies)
    ensures last == replies[requests - 1]
    ensures forall i :: 0 <= i < requests - 1 ==> IsOverLimit(replies[i])
    ensures IsOverLimit(last) ==> requests == MaxAttempts
    ensures sleeps == (if IsOverLimit(last) then requests else requests - 1)
  {
    var attempt := 1;
    var more := true;
    requests, sleeps, last := 0, 0, NoReply;
    while more
      invariant 1 <= attempt <= MaxAttempts + 1
      invariant more ==> attempt <= MaxAttempts
      invariant requests == attempt - 1
      invariant forall i :: 0 <= i < requests ==> IsOverLimit(replies[i]) || (!more && i == requests - 1)
      invariant requests > 0 ==> last == replies[requests - 1]
      invariant !more ==> requests > 0 && (!IsOverLimit(last) || requests == MaxAttempts)
      invariant sleeps == (if requests > 0 && !IsOverLimit(last) then requests - 1 else requests)
      decreases MaxAttempts + 1 - attempt, more
    {
      last := replies[attempt - 1];
      requests := requests + 1;
      if IsOverLimit(last) {
        sleeps := sleeps + 1;
      }
      attempt := attempt + 1;
      more := attempt <= MaxAttempts && IsOverLimit(last);
    }
  }

  /** What `lookup` returns: coordinates, null after deactivating the service, or plain null. */
  datatype Outcome = Found(position: LatLng) | Disable | NotFound

  /**
   * `lookup`'s reply classification: `OK` yields the first result's location (a missing one
   * reads as 0, as `floatval(null)` does); `REQUEST_DENIED` and
   * `INVALID_REQUEST` disable the service; every other reply, a persisting
   * `OVER_QUERY_LIMIT` included, yields nothing and leaves the service on.
   */
  function Classify(reply: Reply): (g: Outcome)
    ensures g.Found? <==> HasStatus(reply, StatusOk)
    ensures g.Disable? <==> HasStatus(reply, StatusRequestDenied) || HasStatus(reply, StatusInvalidRequest)
    ensures g.NotFound? <==>
              !HasStatus(reply, StatusOk) && !HasStatus(reply, StatusRequestDenied)
              && !HasStatus(reply, StatusInvalidRequest)
    ensures g.Found? ==> g.position == (if reply.location.Some? then reply.location.value else LatLng(0.0, 0.0))
  {
    if HasStatus(reply, StatusOk) then Found(if reply.location.Some? then reply.location.value else LatLng(0.0, 0.0))
    else if HasStatus(reply, StatusRequestDenied) || HasStatus(reply, StatusInvalidRequest) then Disable
    else NotFound
  }

  /** The outcome of the retry loop followed by classification. */
  function ReplyOutcome(replies: seq<Reply>): Outcome
    requires |replies| >= MaxAttempts
  {
    Classify(replies[RequestCount(replies) - 1])
  }

  /**
   * The first reply among the first three that is not `OVER_QUERY_LIMIT`
   * decides the outcome; when all three are rate-limited the lookup yields
   * nothing and does not disable the service.
   */
  lemma {:induction false} FirstDecisiveReplyDecides(replies: seq<Reply>)
    requires |replies| >= MaxAttempts
    ensures var k := LeadingOverLimit(replies);
            && (k < MaxAttempts ==> ReplyOutcome(replies) == Classify(replies[k]))
            && (k >= MaxAttempts ==> ReplyOutcome(replies) == NotFound)
  {
    var k := LeadingOverLimit(replies);
    if k >= MaxAttempts {
      assert IsOverLimit(replies[MaxAttempts - 1]);
      assert StatusOverQueryLimit != StatusOk;
      assert StatusOverQueryLimit != StatusRequestDenied;
      assert StatusOverQueryLimit != StatusInvalidRequest;
    }
  }

  /** Two rate-limit replies followed by `OK`: three requests and the coordinates of the third reply. */
  lemma RateLimitedThenOk(p: LatLng, rest: seq<Reply>)
    ensures var replies := [Reply(StatusOverQueryLimit, None), Reply(StatusOverQueryLimit, None),
                            Reply(StatusOk, Some(p))] + rest;
            RequestCount(replies) == 3 && ReplyOutcome(replies) == Found(p)
  {
    var replies := [Reply(StatusOverQueryLimit, None), Reply(StatusOverQueryLimit, None),
                    Reply(StatusOk, Some(p))] + rest;
    assert replies[1..][1..][0] == Reply(StatusOk, Some(p));
    assert StatusOk != StatusOverQueryLimit;
  }

  /**
   * `lookup` end to end: the URL handed to the transport, the number of
   * requests and sleeps, and the outcome, for given collaborators and replies.
   */
  method Lookup(svc: Services, a: Address, replies: seq<Reply>)
    returns (result: Outcome, url: Bytes, requests: nat, sleeps: nat)
    requires |replies| >= MaxAttempts
    ensures 1 <= requests <= MaxAttempts
    ensures requests == RequestCount(replies)
    ensures sleeps == (if IsOverLimit(replies[requests - 1]) then requests else requests - 1)
    ensures result == Classify(replies[requests - 1])
    ensures LeadingOverLimit(replies) < MaxAttempts ==> result == Classify(replies[LeadingOverLimit(replies)])
    ensures LeadingOverLimit(replies) >= MaxAttempts ==> result == NotFound
    ensures url == svc.addKey(BuildUrl(PrepareQuery(svc, a)))
  {
    var last;
    requests, sleeps, last := RequestWithRetry(replies);
    result := Classify(last);
    var k := LeadingOverLimit(replies);
    if k < MaxAttempts {
      assert requests == k + 1;
    } else {
      assert IsOverLimit(last);
    }
    url := svc.addKey(BuildUrl(PrepareQuery(svc, a)));
  }

  /** The unlocalised address line for a US-style address without static_info_tables. */
  lemma UnlocalisedExample(svc: Services)
    requires !svc.staticInfoLoaded
    ensures PrepareQuery(svc, Address("1 Main St", "Springfield", "IL", "62701", "US")).address
            == "1 Main St Springfield, IL 62701, US"
  {
    var a := Address("1 Main St", "Springfield", "IL", "62701", "US");
    var line := DefaultAddress(a, a.country);
    assert line == "1 Main St Springfield, IL 62701, US";
    assert line[0] == '1' && line[|line| - 1] == 'S';
    TrimUntouched(line);
  }
}
