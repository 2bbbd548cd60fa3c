/** The post fetcher: it reads the post id from the post URL, requests the post from
    the Twitter API and retries with exponential backoff. The network, the clock and
    the sleeps are abstracted: the response to the k-th request and the clock reading
    taken with it are inputs, and each sleep is recorded in a log instead of taken. */
module PostFetch {
  import opened Text

  /** The public metrics of a post, each of which the API may leave out. */
  datatype PublicMetrics = PublicMetrics(likeCount: Option<int>, retweetCount: Option<int>)

  /** The decoded body of a successful response: the post text, the media list of the
      `includes` part (each with an optional URL), and the public metrics. A missing
      `data` part reads as a post without text and metrics. */
  datatype Body = Body(
    text: Option<string>,
    media: Option<seq<Option<string>>>,
    publicMetrics: Option<PublicMetrics>)

  /** What one request produces: a network failure, or a status code with the parsed
      rate-limit reset header and the body. */
  datatype Response =
    | NetworkError
    | Reply(status: int, resetHeader: Option<int>, body: Body)

  datatype Metrics = Metrics(likes: int, shares: int, comments: int)

  /** What the fetcher hands back: the post, an error record, or an exception that
      escapes it. */
  datatype FetchResult =
    | Post(content: string, imageUrl: Option<string>, metrics: Metrics, sourcePlatform: string)
    | Failed(error: string)
    | Raised(exception: string)

  /** The outcome with the sleeps requested and the number of requests sent. */
  datatype Trace = Trace(result: FetchResult, sleeps: seq<real>, requests: nat)

  const MaxRetriesMessage: string := "Max retries reached. Please try again later."
  const StatusErrorPrefix: string := "Error fetching Twitter post: "
  const NoContent: string := "No content available"
  const InitialRetries: nat := 5
  const InitialBackoff: nat := 5

  // ---------------------------------------------------------------------------
  // The post id

  /** `status/` followed by a digit starts at `p`. */
  predicate IdAt(url: string, p: int) {
    LiteralAt(url, p, "status/") && p + 7 < |url| && IsDigit(url[p + 7])
  }

  /** `re.search(r"status/(\d+)", url)` from `p` onwards: group 1 of the leftmost match. */
  function StatusIdFrom(url: string, p: nat): (r: Option<string>)
    requires p <= |url|
    ensures r.None? <==> forall q :: p <= q ==> !IdAt(url, q)
    ensures r.Some? ==> |r.value| > 0 && AllDigits(r.value)
    decreases |url| - p
  {
    if p + 8 > |url| then None
    else if IdAt(url, p) then Some(url[p + 7..Span(url, p + 7, IsDigit)])
    else StatusIdFrom(url, p + 1)
  }

  /** The id found is the digit run after the leftmost "status/" that a digit follows. */
  lemma {:induction false} StatusIdLeftmost(url: string, p: nat, q: nat)
    requires p <= q && IdAt(url, q) && forall q' :: p <= q' < q ==> !IdAt(url, q')
    ensures StatusIdFrom(url, p) == Some(url[q + 7..Span(url, q + 7, IsDigit)])
    decreases q - p
  {
    if p < q {
      assert !IdAt(url, p);
      StatusIdLeftmost(url, p + 1, q);
    }
  }

  /** The id of the post a URL names; `None` where the search finds nothing, on which
      `.group(1)` raises. */
  function StatusId(url: string): (r: Option<string>)
    ensures r.None? <==> forall q :: !IdAt(url, q)
  {
    StatusIdFrom(url, 0)
  }

  // ---------------------------------------------------------------------------
  // Reading a successful response

  function OrElse<T>(o: Option<T>, default: T): (r: T)
    ensures o.Some? ==> r == o.value
    ensures o.None? ==> r == default
  {
    if o.Some? then o.value else default
  }

  /** `int()` of a clock reading: truncation toward zero. */
  function Truncate(x: real): (n: int)
    ensures x >= 0.0 ==> n as real <= x < n as real + 1.0
    ensures x < 0.0 ==> n as real - 1.0 < x <= n as real
  {
    if x >= 0.0 then x.Floor else -((-x).Floor)
  }

  /** The time until the rate limit resets: the reset header, or the truncated clock
      when the header is missing, less the clock. Without a header, and with a clock
      that has not gone below zero, there is nothing to wait for. */
  function Wait(header: Option<int>, now: real): (w: real)
    ensures header.Some? ==> w == header.value as real - now
    ensures header.None? && now >= 0.0 ==> -1.0 < w <= 0.0
  {
    (if header.Some? then header.value else Truncate(now)) as real - now
  }

  /** The post record built from a 200 response. Indexing an empty media list raises;
      otherwise the record is a post whose every field either carries the value the
      body holds or, where the body leaves it out, its default. */
  function ReadPost(body: Body): (r: FetchResult)
    ensures body.media == Some([]) <==> r == Raised("IndexError")
    ensures body.media != Some([]) ==> r.Post?
    ensures r.Post? ==> r.metrics.comments == 0 && r.sourcePlatform == "Twitter"
    ensures r.Post? ==> r.content == OrElse(body.text, NoContent)
    ensures r.Post? && body.text.Some? ==> r.content == body.text.value
    ensures r.Post? && body.text.None? ==> r.content == "No content available"
    ensures r.Post? && body.media.Some? ==> |body.media.value| > 0 && r.imageUrl == body.media.value[0]
    ensures r.Post? && body.media.None? ==> r.imageUrl.None?
    ensures r.Post? && body.publicMetrics.Some? && body.publicMetrics.value.likeCount.Some? ==>
      r.metrics.likes == body.publicMetrics.value.likeCount.value
    ensures r.Post? && (body.publicMetrics.None? || body.publicMetrics.value.likeCount.None?) ==>
      r.metrics.likes == 0
    ensures r.Post? && body.publicMetrics.Some? && body.publicMetrics.value.retweetCount.Some? ==>
      r.metrics.shares == body.publicMetrics.value.retweetCount.value
    ensures r.Post? && (body.publicMetrics.None? || body.publicMetrics.value.retweetCount.None?) ==>
      r.metrics.shares == 0
  {
    if body.media == Some([]) then Raised("IndexError")
    else
      var imageUrl := if body.media.Some? then body.media.value[0] else None;
      var metrics := OrElse(body.publicMetrics, PublicMetrics(Some(0), Some(0)));
      Post(OrElse(body.text, NoContent), imageUrl,
           Metrics(OrElse(metrics.likeCount, 0), OrElse(metrics.retweetCount, 0), 0), "Twitter")
  }

  // ---------------------------------------------------------------------------
  // The retry loop

  /** What one try does: sleep for `pause` seconds and try again, or stop with a result,
      having sent a request or, when the URL holds no id, not. */
  datatype Outcome = Sleep(pause: real) | Stop(result: FetchResult, sent: bool)

  /** One pass through the loop body, given the reply to its request and the clock. */
  function Try(url: string, response: Response, now: real, backoff: int): (o: Outcome)
    ensures StatusId(url).None? <==> o == Stop(Raised("AttributeError"), false)
    ensures o.Sleep? ==> response.NetworkError? || response.status == 429
    ensures StatusId(url).Some? && response.NetworkError? ==> o == Sleep(backoff as real)
  {
    if StatusId(url).None? then Stop(Raised("AttributeError"), false)
    else
      match response
      case NetworkError => Sleep(backoff as real)
      case Reply(status, header, body) =>
        if status == 429 then
          var wait := Wait(header, now);
          if wait > 0.0 then Sleep(wait + 1.0) else Stop(Failed(MaxRetriesMessage), true)
        else if status == 200 then Stop(ReadPost(body), true)
        else Stop(Failed(StatusErrorPrefix + IntToString(status)), true)
  }

  /** The fetch from request number `attempt` on, with `retries` tries and the given
      backoff left: the reference the loop is proved against. */
  function Run(url: string, respond: nat -> Response, clock: nat -> real,
               attempt: nat, retries: int, backoff: int): (t: Trace)
    ensures attempt <= t.requests <= attempt + (if retries > 0 then retries else 0)
    ensures |t.sleeps| <= t.requests - attempt
    decreases retries
  {
    if retries <= 0 then Trace(Failed(MaxRetriesMessage), [], attempt)
    else
      match Try(url, respond(attempt), clock(attempt), backoff)
      case Sleep(pause) =>
        var rest := Run(url, respond, clock, attempt + 1, retries - 1, backoff * 2);
        Trace(rest.result, [pause] + rest.sleeps, rest.requests)
      case Stop(result, sent) => Trace(result, [], if sent then attempt + 1 else attempt)
  }

  /** The rest of a fetch `t` seen after the sleeps `slept` already taken. */
  function After(slept: seq<real>, t: Trace): (r: Trace)
    ensures r.result == t.result && r.requests == t.requests
    ensures |r.sleeps| == |slept| + |t.sleeps|
  {
    Trace(t.result, slept + t.sleeps, t.requests)
  }

  /** A try that ends in a sleep hands over to the next try with one retry less and
      the backoff doubled; the sleep joins those already taken. */
  lemma RetryStep(url: string, respond: nat -> Response, clock: nat -> real,
                  attempt: nat, retries: int, backoff: int, pause: real, slept: seq<real>, target: Trace)
    requires retries > 0 && Try(url, respond(attempt), clock(attempt), backoff) == Sleep(pause)
    requires target == After(slept, Run(url, respond, clock, attempt, retries, backoff))
    ensures target == After(slept + [pause], Run(url, respond, clock, attempt + 1, retries - 1, backoff * 2))
  {
    var rest := Run(url, respond, clock, attempt + 1, retries - 1, backoff * 2);
    assert Run(url, respond, clock, attempt, retries, backoff) == Trace(rest.result, [pause] + rest.sleeps, rest.requests);
    assert slept + ([pause] + rest.sleeps) == (slept + [pause]) + rest.sleeps;
  }

  /** A try that ends the fetch: the sleeps taken so far are all there are. */
  lemma FinalStep(url: string, respond: nat -> Response, clock: nat -> real, attempt: nat, retries: int,
                  backoff: int, result: FetchResult, sent: bool, slept: seq<real>, target: Trace)
    requires retries > 0 && Try(url, respond(attempt), clock(attempt), backoff) == Stop(result, sent)
    requires target == After(slept, Run(url, respond, clock, attempt, retries, backoff))
    ensures target == Trace(result, slept, if sent then attempt + 1 else attempt)
  {
    assert slept + [] == slept;
  }

  /** With no tries left the fetch ends with the retry error. */
  lemma EndStep(url: string, respond: nat -> Response, clock: nat -> real,
                attempt: nat, retries: int, backoff: int, slept: seq<real>)
    requires retries <= 0
    ensures After(slept, Run(url, respond, clock, attempt, retries, backoff))
      == Trace(Failed(MaxRetriesMessage), slept, attempt)
  {
    assert slept + [] == slept;
  }

  /** Before the first try nothing has been slept. */
  lemma StartStep(t: Trace)
    ensures t == After([], t)
  {
    assert [] + t.sleeps == t.sleeps;
  }

  /** `fetch_twitter_post`: up to five tries, sleeping between them. */
  method FetchPost(url: string, respond: nat -> Response, clock: nat -> real)
    returns (result: FetchResult, sleeps: seq<real>, requests: nat)
    ensures Trace(result, sleeps, requests) == Run(url, respond, clock, 0, InitialRetries, InitialBackoff)
    ensures requests <= 5 && |sleeps| <= requests
  {
    ghost var target := Run(url, respond, clock, 0, InitialRetries, InitialBackoff);
    var retries: nat := InitialRetries;
    var backoff: int := InitialBackoff;
    var slept: seq<real> := [];
    var count: nat := 0;
    StartStep(target);
    while retries > 0
      invariant target == After(slept, Run(url, respond, clock, count, retries, backoff))
    {
      var outcome := Try(url, respond(count), clock(count), backoff);
      if outcome.Stop? {
        FinalStep(url, respond, clock, count, retries, backoff, outcome.result, outcome.sent, slept, target);
        return outcome.result, slept, if outcome.sent then count + 1 else count;
      }
      RetryStep(url, respond, clock, count, retries, backoff, outcome.pause, slept, target);
      slept := slept + [outcome.pause];
      retries := retries - 1;
      backoff := backoff * 2;
      count := count + 1;
    }
    EndStep(url, respond, clock, count, retries, backoff, slept);
    return Failed(MaxRetriesMessage), slept, count;
  }

  /** One pass through the loop, whichever way the try goes. */
  lemma TryStep(url: string, respond: nat -> Response, clock: nat -> real,
                attempt: nat, retries: int, backoff: int, slept: seq<real>, target: Trace)
    requires retries > 0 && target == After(slept, Run(url, respond, clock, attempt, retries, backoff))
    ensures match Try(url, respond(attempt), clock(attempt), backoff)
      case Sleep(pause) => target == After(slept + [pause], Run(url, respond, clock, attempt + 1, retries - 1, backoff * 2))
      case Stop(result, sent) => target == Trace(result, slept, if sent then attempt + 1 else attempt)
  {
    match Try(url, respond(attempt), clock(attempt), backoff)
    case Sleep(pause) =>
      RetryStep(url, respond, clock, attempt, retries, backoff, pause, slept, target);
    case Stop(result, sent) =>
      FinalStep(url, respond, clock, attempt, retries, backoff, result, sent, slept, target);
  }

  // ---------------------------------------------------------------------------
  // Properties

  /** The sleeps of `n` consecutive network failures from the given backoff on. */
  function Backoffs(backoff: int, n: nat): (r: seq<real>)
    ensures |r| == n
    ensures n > 0 ==> r[0] == backoff as real
    decreases n
  {
    if n == 0 then [] else [backoff as real] + Backoffs(backoff * 2, n - 1)
  }

  /** Each backoff is twice the one before. */
  lemma {:induction false} BackoffsDouble(backoff: int, n: nat)
    ensures forall i :: 0 < i < n ==> Backoffs(backoff, n)[i] == 2.0 * Backoffs(backoff, n)[i - 1]
    decreases n
  {
    if n > 1 {
      BackoffsDouble(backoff * 2, n - 1);
      var r := Backoffs(backoff, n);
      assert r[1] == Backoffs(backoff * 2, n - 1)[0] == (backoff * 2) as real;
      forall i | 1 < i < n
        ensures r[i] == 2.0 * r[i - 1]
      {
        assert r[i] == Backoffs(backoff * 2, n - 1)[i - 1];
        assert r[i - 1] == Backoffs(backoff * 2, n - 1)[i - 2];
      }
    }
  }

  /** When every remaining try fails on the network, each one sleeps the current
      backoff, which then doubles, and the fetch ends with the retry error. */
  lemma {:induction false} NetworkFailuresOnly(url: string, respond: nat -> Response, clock: nat -> real,
                                               attempt: nat, retries: nat, backoff: int)
    requires StatusId(url).Some?
    requires forall k :: attempt <= k < attempt + retries ==> respond(k) == NetworkError
    ensures Run(url, respond, clock, attempt, retries, backoff)
      == Trace(Failed(MaxRetriesMessage), Backoffs(backoff, retries), attempt + retries)
    decreases retries
  {
    if retries > 0 {
      NetworkFailuresOnly(url, respond, clock, attempt + 1, retries - 1, backoff * 2);
    }
  }

  /** Five network failures in a row: sleeps of 5, 10, 20, 40 and 80 seconds, then the
      retry error. */
  lemma FiveNetworkFailures(url: string, respond: nat -> Response, clock: nat -> real)
    requires StatusId(url).Some?
    requires forall k :: 0 <= k < 5 ==> respond(k) == NetworkError
    ensures Run(url, respond, clock, 0, InitialRetries, InitialBackoff)
      == Trace(Failed(MaxRetriesMessage), [5.0, 10.0, 20.0, 40.0, 80.0], 5)
  {
    NetworkFailuresOnly(url, respond, clock, 0, 5, 5);
    assert Backoffs(80, 1) == [80.0];
    assert Backoffs(40, 2) == [40.0, 80.0];
    assert Backoffs(20, 3) == [20.0, 40.0, 80.0];
    assert Backoffs(10, 4) == [10.0, 20.0, 40.0, 80.0];
  }

  /** A URL without a post id raises before any request is sent. */
  lemma InvalidUrlRaises(url: string, respond: nat -> Response, clock: nat -> real)
    requires forall q :: !IdAt(url, q)
    ensures Run(url, respond, clock, 0, InitialRetries, InitialBackoff) == Trace(Raised("AttributeError"), [], 0)
  {
  }

  /** A network failure sleeps the current backoff and goes on with one retry less and
      the backoff doubled, whatever the later tries bring. */
  lemma NetworkFailureRetries(url: string, respond: nat -> Response, clock: nat -> real,
                              attempt: nat, retries: int, backoff: int)
    requires retries > 0 && StatusId(url).Some? && respond(attempt).NetworkError?
    ensures Run(url, respond, clock, attempt, retries, backoff)
      == After([backoff as real], Run(url, respond, clock, attempt + 1, retries - 1, backoff * 2))
  {
  }

  /** A rate-limit reply whose reset lies ahead sleeps until the reset plus one second
      and goes on with one retry less and the backoff doubled. */
  lemma RateLimitWaits(url: string, respond: nat -> Response, clock: nat -> real,
                       attempt: nat, retries: int, backoff: int, reset: int)
    requires retries > 0 && StatusId(url).Some?
    requires respond(attempt).Reply? && respond(attempt).status == 429
    requires respond(attempt).resetHeader == Some(reset) && reset as real > clock(attempt)
    ensures Run(url, respond, clock, attempt, retries, backoff)
      == After([reset as real - clock(attempt) + 1.0], Run(url, respond, clock, attempt + 1, retries - 1, backoff * 2))
  {
  }

  /** A rate-limit reply whose reset has passed, or which has no reset header, ends the
      fetch at once with the retry error, not an error of its own. */
  lemma RateLimitPassed(url: string, respond: nat -> Response, clock: nat -> real,
                        attempt: nat, retries: int, backoff: int)
    requires retries > 0 && StatusId(url).Some? && clock(attempt) >= 0.0
    requires respond(attempt).Reply? && respond(attempt).status == 429
    requires match respond(attempt).resetHeader
      case None => true
      case Some(reset) => reset as real <= clock(attempt)
    ensures Run(url, respond, clock, attempt, retries, backoff) == Trace(Failed(MaxRetriesMessage), [], attempt + 1)
  {
  }

  /** Any status other than 200 and 429 ends the fetch at once with an error naming it. */
  lemma OtherStatusFails(url: string, respond: nat -> Response, clock: nat -> real,
                         attempt: nat, retries: int, backoff: int)
    requires retries > 0 && StatusId(url).Some?
    requires respond(attempt).Reply? && respond(attempt).status != 429 && respond(attempt).status != 200
    ensures Run(url, respond, clock, attempt, retries, backoff)
      == Trace(Failed(StatusErrorPrefix + IntToString(respond(attempt).status)), [], attempt + 1)
  {
  }

  /** A 200 reply ends the fetch with the post read from its body: its text or
      "No content available", the likes and shares it carries, each 0 when missing,
      and no comments. */
  lemma SuccessReadsPost(url: string, respond: nat -> Response, clock: nat -> real,
                         attempt: nat, retries: int, backoff: int)
    requires retries > 0 && StatusId(url).Some?
    requires respond(attempt).Reply? && respond(attempt).status == 200
    requires respond(attempt).body.media != Some([])
    ensures var t := Run(url, respond, clock, attempt, retries, backoff);
      && t.requests == attempt + 1 && t.sleeps == []
      && t.result.Post? && t.result.metrics.comments == 0
      && t.result == ReadPost(respond(attempt).body)
      && t.result.content == OrElse(respond(attempt).body.text, NoContent)
      && (respond(attempt).body.publicMetrics.None? ==> t.result.metrics == Metrics(0, 0, 0))
      && (respond(attempt).body.publicMetrics.Some? ==>
            && t.result.metrics.likes == OrElse(respond(attempt).body.publicMetrics.value.likeCount, 0)
            && t.result.metrics.shares == OrElse(respond(attempt).body.publicMetrics.value.retweetCount, 0))
  {
    var body := respond(attempt).body;
    assert Run(url, respond, clock, attempt, retries, backoff) == Trace(ReadPost(body), [], attempt + 1);
  }

  /** Every sleep is positive when the backoff is: a rate-limit sleep is over a second. */
  lemma {:induction false} SleepsArePositive(url: string, respond: nat -> Response, clock: nat -> real,
                                             attempt: nat, retries: int, backoff: int)
    requires backoff > 0
    ensures forall i :: 0 <= i < |Run(url, respond, clock, attempt, retries, backoff).sleeps| ==>
      Run(url, respond, clock, attempt, retries, backoff).sleeps[i] > 0.0
    decreases retries
  {
    if retries > 0 && StatusId(url).Some? {
      var rest := Run(url, respond, clock, attempt + 1, retries - 1, backoff * 2);
      SleepsArePositive(url, respond, clock, attempt + 1, retries - 1, backoff * 2);
      var t := Run(url, respond, clock, attempt, retries, backoff);
      forall i | 1 <= i < |t.sleeps|
        ensures t.sleeps[i] > 0.0
      {
        assert t.sleeps[i] == rest.sleeps[i - 1];
      }
    }
  }

  /** The post id is the digit run after the first "status/" that a digit follows. */
  lemma StatusIdExample()
    ensures StatusId("x.com/a/status/42?s=20") == Some("42")
    ensures StatusId("x.com/a") == None
  {
    var url := "x.com/a/status/42?s=20";
    ExampleIdAt(url);
    ExampleNoEarlierId(url);
    var id := ExampleDigits(url);
    StatusIdLeftmost(url, 0, 8);
    NoIdInShortUrl("x.com/a");
  }

  lemma ExampleIdAt(url: string)
    requires url == "x.com/a/status/42?s=20"
    ensures IdAt(url, 8)
  {
    assert url[8..15] == "status/";
  }

  lemma ExampleNoEarlierId(url: string)
    requires url == "x.com/a/status/42?s=20"
    ensures forall q :: 0 <= q < 8 ==> !IdAt(url, q)
  {
    forall q | 0 <= q < 8
      ensures !IdAt(url, q)
    {
      assert url[q..q + 7][0] == url[q];
    }
  }

  lemma ExampleDigits(url: string) returns (id: string)
    requires url == "x.com/a/status/42?s=20"
    ensures id == url[15..Span(url, 15, IsDigit)] == "42"
  {
    assert url[15] == '4' && url[16] == '2' && url[17] == '?';
    assert Span(url, 15, IsDigit) == 17;
    id := url[15..17];
  }

  lemma NoIdInShortUrl(url: string)
    requires |url| < 8
    ensures StatusId(url) == None
  {
  }
}
