/**
 * `fetch_logs`: page through `filter_log_events` until a response carries no
 * `nextToken`, collect every page's events and sort them by timestamp.  The
 * backend is a finite list of pages, the k-th request being answered by the
 * k-th page; the wall clock is a function from the request number to the
 * current time in nanoseconds, and so is the stream listing, which
 * `fetch_log_stream_names` repeats before every request.
 */
module Fetch {
  import opened Wrappers
  import opened Events
  import opened Seqs
  import Duration

  /** One `filter_log_events` response; a response without an "events" key has no events. */
  datatype Page = Page(events: seq<LogEvent>, nextToken: Option<string>)

  /** The events list of each page, in page order. */
  function PageEvents(pages: seq<Page>): (r: seq<seq<LogEvent>>)
    ensures |r| == |pages|
    ensures forall i :: 0 <= i < |pages| ==> r[i] == pages[i].events
  {
    seq(|pages|, i requires 0 <= i < |pages| => pages[i].events)
  }

  /** The events of the pages, page after page: `events += response["events"]`. */
  function EventsOf(pages: seq<Page>): seq<LogEvent>
  {
    Concat(PageEvents(pages))
  }

  /** The arguments of one `filter_log_events` call. */
  datatype Request = Request(
    logGroupName: string,
    logStreamNames: seq<string>,
    startTime: int,
    endTime: int,
    filterPattern: string,
    limit: int,
    nextToken: Option<string>)

  /** The backend eventually answers with a page that carries no continuation token. */
  predicate HasLastPage(pages: seq<Page>)
  {
    exists k :: 0 <= k < |pages| && pages[k].nextToken.None?
  }

  /** Index of the first page without a continuation token: the last page that is requested. */
  function LastPage(pages: seq<Page>): (n: nat)
    requires HasLastPage(pages)
    ensures n < |pages| && pages[n].nextToken.None?
    ensures forall k :: 0 <= k < n ==> pages[k].nextToken.Some?
  {
    if pages[0].nextToken.None? then 0
    else
      assert HasLastPage(pages[1..]) by {
        var k :| 0 <= k < |pages| && pages[k].nextToken.None?;
        assert pages[1..][k - 1] == pages[k];
      }
      var n := LastPage(pages[1..]) + 1;
      assert forall k :: 1 <= k < n ==> pages[k] == pages[1..][k - 1];
      n
  }

  /** `int(time.time()) * 1000`: whole seconds of the clock, in milliseconds. */
  function EndTime(clockNanos: nat): (t: int)
    ensures t >= 0 && t % 1000 == 0
    ensures (t / 1000) * Duration.Second <= clockNanos < (t / 1000) * Duration.Second + Duration.Second
  {
    clockNanos / Duration.Second * 1000
  }

  /**
   * The request loop.  It asks for one page after another, passing the token of
   * the previous response, and stops after the first response without a token;
   * the result is the events of all those pages, sorted stably by timestamp.
   */
  method FetchLogs(
    logGroupName: string, filterPattern: string, limit: int, startTime: int,
    streams: nat -> seq<string>, pages: seq<Page>, clock: nat -> nat)
    returns (events: seq<LogEvent>, requests: seq<Request>)
    requires HasLastPage(pages)
    ensures |requests| == LastPage(pages) + 1
    ensures forall k :: 0 <= k < |requests| ==>
      requests[k] == Request(logGroupName, streams(k), startTime, EndTime(clock(k)), filterPattern, limit,
                             if k == 0 then None else pages[k - 1].nextToken)
    ensures events == SortByTimestamp(EventsOf(pages[..|requests|]))
    ensures SortedByTimestamp(events)
    ensures multiset(events) == multiset(EventsOf(pages[..|requests|]))
  {
    var collected: seq<LogEvent> := [];
    var response: Option<Page> := None;
    var k := 0;
    requests := [];
    while response.None? || response.value.nextToken.Some?
      invariant k <= LastPage(pages) + 1
      invariant response.None? <==> k == 0
      invariant k > 0 ==> response == Some(pages[k - 1])
      invariant |requests| == k
      invariant forall m :: 0 <= m < k ==>
        requests[m] == Request(logGroupName, streams(m), startTime, EndTime(clock(m)), filterPattern, limit,
                               if m == 0 then None else pages[m - 1].nextToken)
      invariant collected == EventsOf(pages[..k])
      decreases |pages| - k
    {
      var allNames := streams(k);
      var token := if response.Some? then response.value.nextToken else None;
      var endTime := EndTime(clock(k));
      requests := requests + [Request(logGroupName, allNames, startTime, endTime, filterPattern, limit, token)];
      response := Some(pages[k]);
      collected := collected + pages[k].events;
      assert PageEvents(pages[..k + 1])[..k] == PageEvents(pages[..k]);
      k := k + 1;
    }
    events := SortByTimestamp(collected);
    SortProperties(collected);
  }
}
