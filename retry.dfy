/**
 * The request/retry loop of `fetch_reviews`. The HTTP server is replaced by
 * the finite sequence of responses it gives, one per request, in order.
 *
 * Each pass of the loop issues one request. 200 leaves the loop with the
 * parsed body; 429 increments `retry_count` and backs off for
 * `BASE_DELAY_SECS * retry_count` seconds; 404 leaves the loop; any other
 * status changes nothing and the next pass requests again. The loop runs
 * while `retry_count < MAX_RETRIES`.
 */
module Retry {
  import opened Json

  const MaxRetries := 5
  const BaseDelaySecs := 10

  /** The `next` entry of a parsed page: missing, JSON null, or a link. */
  datatype Next = Absent | Null | Link(url: string)

  /** A parsed 200 body: the `data` array of records and the `next` entry. */
  datatype Body = Body(data: seq<Record>, next: Next)

  /** One HTTP response; `body` is read only when `status` is 200. */
  datatype Response = Response(status: int, body: Body)

  /** `{'data': [], 'next': None}`, what `result` holds until a 200 arrives. */
  const Placeholder := Body([], Null)

  /** A status the loop has no branch for. */
  predicate Ignored(status: int) {
    status != 200 && status != 404 && status != 429
  }

  /**
   * Where the loop stands: about to request with `retry_count == retries`, or
   * left with `result`, the status of the last response and `retry_count`.
   */
  datatype LoopState =
    | Requesting(retries: nat)
    | Left(result: Body, status: int, retries: nat)

  /**
   * One pass of the loop body on the response to its request, including the
   * test of the loop condition that follows a 429.
   */
  function Step(retries: nat, r: Response): (s: LoopState)
    requires retries < MaxRetries
    ensures s.Requesting? ==> s.retries < MaxRetries
  {
    if r.status == 200 then Left(r.body, 200, retries)
    else if r.status == 429 then
      if retries + 1 < MaxRetries then Requesting(retries + 1) else Left(Placeholder, 429, retries + 1)
    else if r.status == 404 then Left(Placeholder, 404, retries)
    else Requesting(retries)
  }

  /** The state the loop ends in, and how many requests it issued. */
  datatype LoopEnd = LoopEnd(state: LoopState, requests: nat)

  /** `e` with `n` more requests issued before it. */
  function After(n: nat, e: LoopEnd): LoopEnd {
    LoopEnd(e.state, e.requests + n)
  }

  /**
   * The loop run from `retry_count == retries` against the responses `rs`.
   * If `rs` runs out while the loop still wants to request, the end state is
   * `Requesting`: the source would issue another request.
   */
  function Run(rs: seq<Response>, retries: nat): LoopEnd
    requires retries < MaxRetries
    decreases |rs|
  {
    if rs == [] then LoopEnd(Requesting(retries), 0)
    else
      var s := Step(retries, rs[0]);
      if s.Left? then LoopEnd(s, 1) else After(1, Run(rs[1..], s.retries))
  }

  /** The backoff durations after `count` rate-limited responses, in order. */
  function Backoffs(count: nat): (d: seq<nat>)
    ensures |d| == count
    ensures forall i :: 0 <= i < count ==> d[i] == BaseDelaySecs * (i + 1)
  {
    if count == 0 then [] else Backoffs(count - 1) + [BaseDelaySecs * count]
  }

  function Sum(d: seq<nat>): nat {
    if d == [] then 0 else Sum(d[..|d| - 1]) + d[|d| - 1]
  }

  /** The number of 429 responses in `rs`. */
  function RateLimits(rs: seq<Response>): nat {
    if rs == [] then 0 else RateLimits(rs[..|rs| - 1]) + (if rs[|rs| - 1].status == 429 then 1 else 0)
  }

  /** The total time spent backing off is linear in each retry, so quadratic in their number. */
  lemma {:induction false} BackoffTotal(count: nat)
    ensures 2 * Sum(Backoffs(count)) == BaseDelaySecs * count * (count + 1)
  {
    if count > 0 {
      var c := count - 1;
      BackoffTotal(c);
      assert Backoffs(count)[..c] == Backoffs(c);
      assert Sum(Backoffs(count)) == Sum(Backoffs(c)) + BaseDelaySecs * count;
      assert c * count + 2 * count == count * (count + 1);
    }
  }

  /**
   * How any run ends: it issues at least one request and at most one per
   * response; it leaves the loop only on 200, 404 or the 429 that exhausts the
   * retries, reporting that last response's status; before it every response
   * was neither 200 nor 404; and `retry_count` went up once per 429.
   */
  lemma {:induction false} RunShape(rs: seq<Response>, retries: nat)
    requires retries < MaxRetries
    ensures Run(rs, retries).requests <= |rs|
    ensures Run(rs, retries).state.Requesting? ==> Run(rs, retries).requests == |rs|
    ensures Run(rs, retries).state.Left? ==> 1 <= Run(rs, retries).requests
    ensures Run(rs, retries).state.Left? ==>
              Run(rs, retries).state.status == rs[Run(rs, retries).requests - 1].status
    ensures Run(rs, retries).state.Left? ==> !Ignored(Run(rs, retries).state.status)
    ensures Run(rs, retries).state.Left? && Run(rs, retries).state.status == 429 ==>
              Run(rs, retries).state.retries == MaxRetries
    ensures Run(rs, retries).state.Left? && Run(rs, retries).state.status == 200 ==>
              Run(rs, retries).state.result == rs[Run(rs, retries).requests - 1].body
    ensures Run(rs, retries).state.Left? && Run(rs, retries).state.status != 200 ==>
              Run(rs, retries).state.result == Placeholder
    ensures forall i :: 0 <= i < Run(rs, retries).requests - 1 ==> rs[i].status != 200 && rs[i].status != 404
    ensures Run(rs, retries).state.Requesting? ==> forall i :: 0 <= i < |rs| ==> rs[i].status != 200 && rs[i].status != 404
    ensures Run(rs, retries).state.retries == retries + RateLimits(rs[..Run(rs, retries).requests])
    ensures Run(rs, retries).state.retries <= MaxRetries
    decreases |rs|
  {
    if rs != [] {
      var s := Step(retries, rs[0]);
      var e := Run(rs, retries);
      if s.Left? {
        assert rs[..1] == [rs[0]];
        assert RateLimits(rs[..1]) == RateLimits([]) + RateLimits(rs[..1]);
      } else {
        var rest := Run(rs[1..], s.retries);
        RunShape(rs[1..], s.retries);
        assert e == After(1, rest);
        RateLimitsFront(rs[0], rs[1..][..rest.requests]);
        assert [rs[0]] + rs[1..][..rest.requests] == rs[..e.requests];
      }
    }
  }

  /** Counting 429s from the front. */
  lemma {:induction false} RateLimitsFront(r: Response, rs: seq<Response>)
    ensures RateLimits([r] + rs) == (if r.status == 429 then 1 else 0) + RateLimits(rs)
    decreases |rs|
  {
    if rs != [] {
      var last := rs[|rs| - 1];
      assert ([r] + rs)[..|rs|] == [r] + rs[..|rs| - 1];
      RateLimitsFront(r, rs[..|rs| - 1]);
    } else {
      assert [r] + rs == [r];
      assert [r][..0] == [];
    }
  }

  /**
   * Responses with statuses the loop has no branch for change nothing: after
   * `n` of them the loop stands exactly where it stood, `n` requests later.
   */
  lemma {:induction false} IgnoredChangeNothing(rs: seq<Response>, retries: nat, n: nat)
    requires retries < MaxRetries
    requires n <= |rs|
    requires forall i :: 0 <= i < n ==> Ignored(rs[i].status)
    ensures Run(rs, retries) == After(n, Run(rs[n..], retries))
    decreases n
  {
    if n > 0 {
      assert Step(retries, rs[0]) == Requesting(retries);
      IgnoredChangeNothing(rs[1..], retries, n - 1);
      assert rs[1..][n - 1..] == rs[n..];
    }
  }

  /**
   * A server that only ever answers with an ignored status keeps the loop
   * requesting: whatever the number of such responses, all are consumed and
   * the loop still wants another one. In the source the loop never ends.
   */
  lemma IgnoredForever(rs: seq<Response>, retries: nat)
    requires retries < MaxRetries
    requires forall i :: 0 <= i < |rs| ==> Ignored(rs[i].status)
    ensures Run(rs, retries) == LoopEnd(Requesting(retries), |rs|)
  {
    IgnoredChangeNothing(rs, retries, |rs|);
    assert rs[|rs|..] == [];
  }

  /**
   * A run of 429s from `retry_count == retries` ends the loop after exactly
   * `MaxRetries - retries` requests, with `retry_count == MaxRetries`.
   */
  lemma {:induction false} RateLimitedFrom(rs: seq<Response>, retries: nat)
    requires retries < MaxRetries
    requires MaxRetries - retries <= |rs|
    requires forall i :: 0 <= i < MaxRetries - retries ==> rs[i].status == 429
    ensures Run(rs, retries) == LoopEnd(Left(Placeholder, 429, MaxRetries), MaxRetries - retries)
    decreases MaxRetries - retries
  {
    if retries + 1 < MaxRetries {
      RateLimitedFrom(rs[1..], retries + 1);
    }
  }

  /**
   * A server answering 429 to every request gets exactly five requests, with
   * backoffs of 10, 20, 30, 40 and 50 seconds, 150 in all.
   */
  lemma AllRateLimited(rs: seq<Response>)
    requires MaxRetries <= |rs|
    requires forall i :: 0 <= i < MaxRetries ==> rs[i].status == 429
    ensures Run(rs, 0) == LoopEnd(Left(Placeholder, 429, MaxRetries), MaxRetries)
    ensures Backoffs(Run(rs, 0).state.retries) == [10, 20, 30, 40, 50]
    ensures Sum(Backoffs(Run(rs, 0).state.retries)) == 150
  {
    RateLimitedFrom(rs, 0);
    BackoffTotal(MaxRetries);
  }

  /**
   * The first 200 or 404 ends the loop, provided the 429s before it left
   * retries to spare: 200 keeps its body, 404 the placeholder, and
   * `retry_count` has gone up once per earlier 429. No further request is made.
   */
  lemma {:induction false} Decided(rs: seq<Response>, retries: nat, n: nat)
    requires retries < MaxRetries
    requires n < |rs|
    requires forall i :: 0 <= i < n ==> rs[i].status != 200 && rs[i].status != 404
    requires retries + RateLimits(rs[..n]) < MaxRetries
    ensures rs[n].status == 404 ==>
              Run(rs, retries) == LoopEnd(Left(Placeholder, 404, retries + RateLimits(rs[..n])), n + 1)
    ensures rs[n].status == 200 ==>
              Run(rs, retries) == LoopEnd(Left(rs[n].body, 200, retries + RateLimits(rs[..n])), n + 1)
    decreases n
  {
    if n > 0 {
      RateLimitsFront(rs[0], rs[1..][..n - 1]);
      assert [rs[0]] + rs[1..][..n - 1] == rs[..n];
      var s := Step(retries, rs[0]);
      assert s == Requesting(retries + (if rs[0].status == 429 then 1 else 0));
      Decided(rs[1..], s.retries, n - 1);
    } else {
      assert rs[..0] == [];
    }
  }
}
