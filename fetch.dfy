/**
 * `fetch_reviews`: one page fetch. The retry loop runs against the server's
 * responses; the cursor of the following page is taken from the `next` link
 * of the final `result`; every record of the batch is stamped with it.
 */
module Fetch {
  import opened Wrappers
  import opened Json
  import opened Cursor
  import opened Stamping
  import opened Retry

  /** How `fetch_reviews` ends. */
  datatype FetchOutcome =
      /** `return reviews, offset, response.status_code` */
    | Returned(reviews: seq<Record>, offset: Option<string>, status: int)
      /** `next` is a link the cursor pattern does not match: `.group(1)` is called on `None`. */
    | CursorNotFound(next: string)
      /** The responses ran out while the loop, with `retries` retries counted, would request again. */
    | StillRequesting(retries: nat)

  /** The cursor for the following page, or `None` when `next` is missing or null. */
  datatype CursorResult = Extracted(offset: Option<string>) | Unmatched

  /** The pagination step after the loop. */
  function NextCursor(next: Next): (c: CursorResult)
    ensures next.Absent? || next.Null? ==> c == Extracted(None)
    ensures next.Link? ==> (c.Unmatched? <==> forall i, e :: !Matches(next.url, i, e))
    ensures next.Link? && c.Extracted? ==>
              c.offset.Some? && exists i, e :: Chosen(next.url, i, e) && c.offset.value == next.url[i + |Key|..e]
  {
    match next
    case Absent => Extracted(None)
    case Null => Extracted(None)
    case Link(url) =>
      match ExtractOffset(url)
      case None => Unmatched
      case Some(digits) => Extracted(Some(digits))
  }

  /** What one call of `fetch_reviews` for `appId` returns against the responses `server`. */
  function Fetch(appId: string, server: seq<Response>): FetchOutcome {
    match Run(server, 0).state
    case Requesting(retries) => StillRequesting(retries)
    case Left(result, status, _) =>
      match NextCursor(result.next)
      case Unmatched => CursorNotFound(result.next.url)
      case Extracted(offset) => Returned(Stamped(result.data, offset, appId), offset, status)
  }

  /**
   * The body of `fetch_reviews`, with the server given as its responses.
   * `requests` counts the requests issued and `backoffs` lists the backoff
   * durations slept, in order.
   */
  method FetchReviews(appId: string, server: seq<Response>)
      returns (out: FetchOutcome, ghost requests: nat, ghost backoffs: seq<nat>)
    ensures out == Fetch(appId, server)
    ensures requests == Run(server, 0).requests
    ensures backoffs == Backoffs(Run(server, 0).state.retries)
  {
    var retryCount := 0;
    var result := Placeholder;
    var reviews: seq<Record> := [];
    var status := 0;  // the status of the last response
    var n := 0;  // responses consumed so far
    requests, backoffs := 0, [];
    while retryCount < MaxRetries
      invariant n <= |server| && requests == n
      invariant backoffs == Backoffs(retryCount)
      invariant retryCount <= MaxRetries
      invariant retryCount < MaxRetries ==> Run(server, 0) == After(n, Run(server[n..], retryCount))
      invariant retryCount == MaxRetries ==> Run(server, 0) == LoopEnd(Left(Placeholder, 429, MaxRetries), n)
      invariant retryCount == MaxRetries ==> status == 429
      invariant result == Placeholder && reviews == result.data
      decreases |server| - n
    {
      if n == |server| {
        return StillRequesting(retryCount), requests, backoffs;
      }
      var response := server[n];
      assert server[n..][1..] == server[n + 1..];
      n, requests := n + 1, requests + 1;
      status := response.status;
      if response.status == 200 {
        result := response.body;
        reviews := result.data;
        break;
      } else {
        if response.status == 429 {
          retryCount := retryCount + 1;
          var backoffTime := BaseDelaySecs * retryCount;
          backoffs := backoffs + [backoffTime];
          continue;
        } else if response.status == 404 {
          break;
        }
      }
    }

    var offset: Option<string> := None;
    if result.next.Link? {
      offset := ExtractOffset(result.next.url);
      if offset.None? {
        return CursorNotFound(result.next.url), requests, backoffs;
      }
    }

    var batch := new Record[|reviews|](i requires 0 <= i < |reviews| => reviews[i]);
    StampBatch(batch, offset, appId);
    out := Returned(batch[..], offset, status);
  }

  /**
   * Every way a call can end. A returned status is that of the last request
   * issued and is 200, 404 or 429; whenever it is not 200 the batch is empty
   * and the cursor is `None`, as `result` still holds its placeholder. Only a
   * 200 page can carry a link the cursor pattern rejects. When the responses
   * run out, none of them was 200 or 404.
   */
  lemma OutcomeShape(appId: string, server: seq<Response>)
    ensures Fetch(appId, server).Returned? ==>
              var e := Run(server, 0);
              && 1 <= e.requests <= |server|
              && Fetch(appId, server).status == server[e.requests - 1].status
              && !Ignored(Fetch(appId, server).status)
    ensures Fetch(appId, server).Returned? && Fetch(appId, server).status != 200 ==>
              Fetch(appId, server).reviews == [] && Fetch(appId, server).offset == None
    ensures Fetch(appId, server).CursorNotFound? ==> Run(server, 0).state == Left(Run(server, 0).state.result, 200, Run(server, 0).state.retries)
    ensures Fetch(appId, server).StillRequesting? ==>
              Run(server, 0).requests == |server| &&
              forall i :: 0 <= i < |server| ==> server[i].status != 200 && server[i].status != 404
  {
    RunShape(server, 0);
  }

  /**
   * A server answering 429 to every request: after five requests the call
   * returns `([], None, 429)`.
   */
  lemma AllRateLimitedFetch(appId: string, server: seq<Response>)
    requires MaxRetries <= |server|
    requires forall i :: 0 <= i < MaxRetries ==> server[i].status == 429
    ensures Fetch(appId, server) == Returned([], None, 429)
    ensures Run(server, 0).requests == 5
  {
    AllRateLimited(server);
  }

  /**
   * A 404 ends the call at once, with no further request: the call returns
   * `([], None, 404)`. The responses before it were 429s that left retries to
   * spare, or statuses the loop ignores; `retry_count` counts those 429s.
   */
  lemma NotFoundFetch(appId: string, server: seq<Response>, n: nat)
    requires n < |server| && server[n].status == 404
    requires forall i :: 0 <= i < n ==> server[i].status != 200 && server[i].status != 404
    requires RateLimits(server[..n]) < MaxRetries
    ensures Fetch(appId, server) == Returned([], None, 404)
    ensures Run(server, 0).requests == n + 1 && Run(server, 0).state.retries == RateLimits(server[..n])
  {
    Decided(server, 0, n);
  }

  /**
   * The first 200 ends the call, whatever 429s (short of the last retry) and
   * ignored statuses came before it: the batch is that response's `data`, in
   * order, each record stamped with the cursor taken from its `next` entry; a
   * link the cursor pattern rejects makes the call fail instead.
   */
  lemma SuccessFetch(appId: string, server: seq<Response>, n: nat)
    requires n < |server| && server[n].status == 200
    requires forall i :: 0 <= i < n ==> server[i].status != 200 && server[i].status != 404
    requires RateLimits(server[..n]) < MaxRetries
    ensures Run(server, 0).requests == n + 1 && Run(server, 0).state.retries == RateLimits(server[..n])
    ensures NextCursor(server[n].body.next).Extracted? ==>
              var offset := NextCursor(server[n].body.next).offset;
              Fetch(appId, server) == Returned(Stamped(server[n].body.data, offset, appId), offset, 200)
    ensures NextCursor(server[n].body.next).Unmatched? ==>
              Fetch(appId, server) == CursorNotFound(server[n].body.next.url)
  {
    Decided(server, 0, n);
  }

  /**
   * Pagination threading, for every call that returns with status 200: the
   * batch comes from the last response, a 200 preceded by no 200 or 404; the
   * cursor returned is the one its `next` entry yields; and every record of
   * the batch carries that cursor, the batch size and the app id, its other
   * fields unchanged.
   */
  lemma PaginationThreading(appId: string, server: seq<Response>)
    requires Fetch(appId, server).Returned? && Fetch(appId, server).status == 200
    ensures var k := Run(server, 0).requests - 1;
      && 0 <= k < |server| && server[k].status == 200
      && (forall i :: 0 <= i < k ==> server[i].status != 200 && server[i].status != 404)
      && NextCursor(server[k].body.next) == Extracted(Fetch(appId, server).offset)
      && |Fetch(appId, server).reviews| == |server[k].body.data|
      && forall i :: 0 <= i < |Fetch(appId, server).reviews| ==>
           var rec := Fetch(appId, server).reviews[i];
           && rec["offset"] == OffsetValue(Fetch(appId, server).offset)
           && rec["n_batch"] == JNum(|server[k].body.data|)
           && rec["app_id"] == JStr(appId)
           && forall key :: key in server[k].body.data[i] && !Derived(key) ==> key in rec && rec[key] == server[k].body.data[i][key]
  {
    RunShape(server, 0);
  }

  /**
   * Two 429s, then a 200: the call returns the third response's batch after
   * three requests, having backed off for 10 and then 20 seconds.
   */
  lemma BackoffThenSuccess(appId: string, limited: Body, page: Body)
    requires NextCursor(page.next).Extracted?
    ensures var server := [Response(429, limited), Response(429, limited), Response(200, page)];
      var offset := NextCursor(page.next).offset;
      && Fetch(appId, server) == Returned(Stamped(page.data, offset, appId), offset, 200)
      && Run(server, 0).requests == 3
      && Backoffs(Run(server, 0).state.retries) == [10, 20]
  {
    var server := [Response(429, limited), Response(429, limited), Response(200, page)];
    assert server[..2] == [server[0], server[1]];
    assert [server[0], server[1]][..1] == [server[0]];
    assert [server[0]][..0] == [];
    assert RateLimits([server[0]]) == 1;
    assert RateLimits(server[..2]) == 2;
    SuccessFetch(appId, server, 2);
    assert Backoffs(2) == Backoffs(1) + [20];
  }

  /** The cursor of a link ending in `offset=21` is `"21"`. */
  lemma OffsetTwentyOne()
    ensures ExtractOffset("reviews?offset=21") == Some("21")
  {
    var s := "reviews?offset=21";
    assert s[8..15] == Key;
    assert Matches(s, 8, 17);
    var r := ExtractOffset(s);
    assert r.Some?;
    var i, e :| Chosen(s, i, e) && r.value == s[i + |Key|..e];
    assert 8 <= i <= 9;
    assert s[9] != Key[0];
    assert i == 8 && e == 17;
    assert s[15..17] == "21";
  }
}
