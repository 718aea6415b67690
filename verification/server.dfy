/** The top-level routes of the app: the health check and `GET /:code`,
    the short URL itself. */
module Server {
  import opened Wrappers
  import opened Text
  import opened Schema
  import opened Codes
  import opened Http

  const NotFoundMessage := "Not found"
  const HealthPath := "healthz"
  const HealthVersion := "1.0"

  /** Path segments the route leaves alone: anything with a dot (a static
      file), anything starting with `api`, and the health check. */
  predicate IsReserved(code: string) {
    '.' in code || "api" <= code || code == HealthPath
  }

  /** GET /:code at time `now`. A reserved segment is 404 without touching
      the table. Otherwise the segment is looked up as it is, with no format
      check: a segment holding U+0000 makes the query fail (500); unknown is
      404; known counts one click and redirects with 302 to the stored url.
      A counter already at the `INTEGER` maximum makes the update fail and
      the route answer 500. No other row and no other column changes. */
  function Redirect(store: Store, code: string, now: Time): (r: Reply)
    ensures IsReserved(code) ==> r == Reply(404, Error(NotFoundMessage), store)
    ensures !IsReserved(code) && !NulFree(code) ==> r == Reply(500, Error(InternalErrorMessage), store)
    ensures !IsReserved(code) && NulFree(code) && code !in store ==> r == Reply(404, Error(LinkNotFoundMessage), store)
    ensures r.status == 302 <==>
      !IsReserved(code) && NulFree(code) && code in store && store[code].total_clicks < MaxInt32
    ensures r.status == 302 ==>
      && r.body == Location(store[code].url)
      && r.store == store[code := Clicked(store[code], now)]
    ensures !IsReserved(code) && code in store && store[code].total_clicks >= MaxInt32 ==>
      r == Reply(500, Error(InternalErrorMessage), store)
    ensures r.status == 500 <==>
      !IsReserved(code) && (!NulFree(code) || (code in store && store[code].total_clicks >= MaxInt32))
    ensures r.status != 302 ==> r.store == store
    ensures r.store.Keys == store.Keys
    ensures forall k :: k in store && k != code ==> r.store[k] == store[k]
    ensures WellFormed(store) ==> WellFormed(r.store)
  {
    if IsReserved(code) then Reply(404, Error(NotFoundMessage), store)
    else if !NulFree(code) then Reply(500, Error(InternalErrorMessage), store)
    else if code !in store then Reply(404, Error(LinkNotFoundMessage), store)
    else
      var link := store[code];
      match RecordClick(store, code, now)
      case None => Reply(500, Error(InternalErrorMessage), store)
      case Some(updated) => Reply(302, Location(link.url), updated)
  }

  /** GET /<segment> for a single non-empty path segment (`/:code` never
      matches an empty one: `GET /` goes to the static files or the app's
      catch-all route, neither modelled here). The health route is
      registered first, and Express matches routes without regard to ASCII
      case, so any spelling of `healthz` gets the health answer; every other
      segment reaches the short-URL route. */
  function Visit(store: Store, segment: string, now: Time): (r: Reply)
    requires segment != ""
    ensures Lower(segment) == HealthPath ==> r == Reply(200, Health(HealthVersion), store)
    ensures Lower(segment) != HealthPath ==> r == Redirect(store, segment, now)
    ensures r.status == 200 <==> Lower(segment) == HealthPath
    ensures r.status == 302 <==>
      && Lower(segment) != HealthPath && !IsReserved(segment) && NulFree(segment)
      && segment in store && store[segment].total_clicks < MaxInt32
    ensures r.status != 302 ==> r.store == store
  {
    if Lower(segment) == HealthPath then Reply(200, Health(HealthVersion), store)
    else Redirect(store, segment, now)
  }

  /** Visiting the short URL `/code` once at each of `times`, in order. */
  function FollowAll(store: Store, code: string, times: seq<Time>): (r: Store)
    requires code != ""
    ensures r.Keys == store.Keys
    decreases |times|
  {
    if times == [] then store
    else FollowAll(Visit(store, code, times[0]).store, code, times[1..])
  }

  /** N visits of a short URL raise its counter by exactly N and leave the
      time of the last visit; its url, code and creation time, and every
      other row, stay as they were. This needs a code that the health route
      does not answer and that the short-URL route does not refuse. */
  lemma {:induction false} VisitsAreCounted(store: Store, code: string, times: seq<Time>)
    requires code != "" && Lower(code) != HealthPath && !IsReserved(code) && NulFree(code) && code in store
    requires store[code].total_clicks + |times| <= MaxInt32
    ensures var after := FollowAll(store, code, times);
            && after.Keys == store.Keys
            && (forall k :: k in store && k != code ==> after[k] == store[k])
            && after[code].total_clicks == store[code].total_clicks + |times|
            && after[code].last_clicked_at == (if times == [] then store[code].last_clicked_at else Some(times[|times| - 1]))
            && after[code].url == store[code].url
            && after[code].code == store[code].code
            && after[code].created_at == store[code].created_at
    decreases |times|
  {
    if times != [] {
      var next := Visit(store, code, times[0]).store;
      VisitsAreCounted(next, code, times[1..]);
      if |times| > 1 {
        assert times[1..][|times[1..]| - 1] == times[|times| - 1];
      }
    }
  }

  /** A fresh link visited N times shows N clicks. */
  lemma FreshLinkVisitedNTimes(code: string, url: string, created: Time, times: seq<Time>)
    requires code != "" && Lower(code) != HealthPath && !IsReserved(code) && NulFree(code)
    requires 0 < |times| <= MaxInt32
    ensures var store := map[code := FreshRow(code, url, created)];
            && FollowAll(store, code, times)[code].total_clicks == |times|
            && FollowAll(store, code, times)[code].last_clicked_at == Some(times[|times| - 1])
  {
    VisitsAreCounted(map[code := FreshRow(code, url, created)], code, times);
  }

  /** The route applies no format check: a known code that `isValidCode`
      would refuse still redirects. */
  lemma NoFormatCheckOnRedirect(now: Time)
    ensures var store := map["ab" := FreshRow("ab", "https://example.com", 0)];
            && !IsValidCode("ab")
            && Redirect(store, "ab", now).status == 302
  {
    var store := map["ab" := FreshRow("ab", "https://example.com", 0)];
    assert !IsReserved("ab") by {
      assert "ab" == ['a', 'b'];
      assert "ab"[1] != "api"[1];
      assert |"ab"| != |HealthPath|;
    }
    assert NulFree("ab") by { assert "ab" == ['a', 'b']; }
    assert "ab" in store && store["ab"].total_clicks == 0;
  }

  /** The create handler and the app's routes disagree: `api123` and
      `healthz` are valid custom codes, yet their short URLs are refused as
      reserved; and a valid code that spells `healthz` in any mix of case is
      answered by the health check, whatever the table holds. */
  lemma ValidCodesTheRouteRefuses(store: Store, now: Time)
    ensures IsValidCode("api123") && Visit(store, "api123", now) == Reply(404, Error(NotFoundMessage), store)
    ensures IsValidCode("healthz") && Visit(store, "healthz", now).body == Health(HealthVersion)
    ensures IsValidCode("HEALTHZ") && Visit(store, "HEALTHZ", now).body == Health(HealthVersion)
  {
    assert "api" <= "api123";
    LowerOfExamples();
  }

  lemma LowerOfExamples()
    ensures Lower("api123") != HealthPath
    ensures Lower("healthz") == HealthPath && Lower("HEALTHZ") == HealthPath
  {
    assert Lower("api123")[0] == 'a';
  }
}
