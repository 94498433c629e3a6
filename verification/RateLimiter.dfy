/** The fixed-window rate limiter of the HTTP server. Times are in milliseconds. */
module RateLimiter {
  import opened Kernel
  import Sorting

  /** The hash of a request's credentials or address. */
  type Key = nat

  datatype Options = Options(maxRequests: int, windowMs: int)

  datatype Bucket = Bucket(count: nat, resetAt: Timestamp)

  type Buckets = map<Key, Bucket>

  datatype Request = Request(key: Key, at: Timestamp)

  /** One request's effect on its own bucket, and the seconds it is told to wait, if any. */
  function Consumed(options: Options, bucket: Option<Bucket>, now: Timestamp): (Bucket, Option<int>) {
    if bucket.None? || bucket.value.resetAt <= now then (Bucket(1, now + options.windowMs), None)
    else
      var current := bucket.value.(count := bucket.value.count + 1);
      (current, if current.count <= options.maxRequests then None
                else Some(AtLeastOne(CeilSeconds(current.resetAt - now))))
  }

  function CeilSeconds(ms: int): int {
    (ms + 999) / 1000
  }

  function AtLeastOne(n: int): int {
    if n < 1 then 1 else n
  }

  class Limiter {
    const options: Option<Options>
    var buckets: Buckets

    constructor (options: Option<Options>)
      ensures this.options == options && buckets == map[]
    {
      this.options, buckets := options, map[];
    }

    method Consume(request: Request) returns (retryAfter: Option<int>)
      modifies this
      ensures options.None? ==> retryAfter == None && buckets == old(buckets)
      ensures options.Some? ==>
                var (bucket, wait) := Consumed(options.value, Lookup(old(buckets), request.key), request.at);
                retryAfter == wait && buckets == old(buckets)[request.key := bucket]
    {
      if options.None? {
        return None;
      }
      var key, now := request.key, request.at;
      if key !in buckets || buckets[key].resetAt <= now {
        buckets := buckets[key := Bucket(1, now + options.value.windowMs)];
        return None;
      }
      var current := buckets[key].(count := buckets[key].count + 1);
      buckets := buckets[key := current];
      if current.count <= options.value.maxRequests {
        return None;
      }
      retryAfter := Some(AtLeastOne(CeilSeconds(current.resetAt - now)));
    }
  }

  // ----- whole runs

  function BucketsAfter(options: Options, requests: seq<Request>): Buckets {
    if requests == [] then map[]
    else
      var before := BucketsAfter(options, requests[..|requests| - 1]);
      var r := requests[|requests| - 1];
      before[r.key := Consumed(options, Lookup(before, r.key), r.at).0]
  }

  /** When the key's requests were let through. */
  function AcceptedTimes(options: Options, requests: seq<Request>, key: Key): seq<Timestamp> {
    if requests == [] then []
    else
      var front, r := requests[..|requests| - 1], requests[|requests| - 1];
      var before := AcceptedTimes(options, front, key);
      if r.key == key && Consumed(options, Lookup(BucketsAfter(options, front), key), r.at).1.None?
      then before + [r.at] else before
  }

  /** The clock never runs backwards. */
  ghost predicate Monotone(requests: seq<Request>) {
    forall i, j :: 0 <= i < j < |requests| ==> requests[i].at <= requests[j].at
  }

  predicate Within(t: Timestamp, lo: Timestamp, hi: Timestamp) {
    lo <= t < hi
  }

  function CountIn(times: seq<Timestamp>, lo: Timestamp, hi: Timestamp): nat {
    if times == [] then 0
    else CountIn(times[..|times| - 1], lo, hi) + if Within(times[|times| - 1], lo, hi) then 1 else 0
  }

  function Most(options: Options): nat {
    if options.maxRequests < 1 then 1 else options.maxRequests
  }

  // ----- counting

  lemma CountNext(times: seq<Timestamp>, t: Timestamp, lo: Timestamp, hi: Timestamp)
    ensures CountIn(times + [t], lo, hi) == CountIn(times, lo, hi) + if Within(t, lo, hi) then 1 else 0
  {
    assert (times + [t])[..|times|] == times;
  }

  lemma {:induction false} CountSplit(times: seq<Timestamp>, lo: Timestamp, mid: Timestamp, hi: Timestamp)
    requires lo <= mid <= hi
    ensures CountIn(times, lo, hi) == CountIn(times, lo, mid) + CountIn(times, mid, hi)
  {
    if times != [] {
      CountSplit(times[..|times| - 1], lo, mid, hi);
    }
  }

  lemma {:induction false} CountWider(times: seq<Timestamp>, lo: Timestamp, hi: Timestamp, low: Timestamp,
                                      high: Timestamp)
    requires low <= lo && hi <= high
    ensures CountIn(times, lo, hi) <= CountIn(times, low, high)
  {
    if times != [] {
      CountWider(times[..|times| - 1], lo, hi, low, high);
    }
  }

  lemma {:induction false} CountNone(times: seq<Timestamp>, lo: Timestamp, hi: Timestamp)
    requires forall t :: t in times ==> !Within(t, lo, hi)
    ensures CountIn(times, lo, hi) == 0
  {
    if times != [] {
      assert times[|times| - 1] in times && forall t :: t in times[..|times| - 1] ==> t in times;
      CountNone(times[..|times| - 1], lo, hi);
    }
  }

  lemma {:induction false} CountSame(times: seq<Timestamp>, lo: Timestamp, hi: Timestamp, high: Timestamp)
    requires forall t :: t in times ==> (Within(t, lo, hi) <==> Within(t, lo, high))
    ensures CountIn(times, lo, hi) == CountIn(times, lo, high)
  {
    if times != [] {
      assert times[|times| - 1] in times && forall t :: t in times[..|times| - 1] ==> t in times;
      CountSame(times[..|times| - 1], lo, hi, high);
    }
  }

  // ----- what every request keeps, for one key

  /** `start` is when the current bucket was opened. All its accepted requests fall before `resetAt`, and a window
      that reaches into the bucket holds at most one earlier bucket's worth. */
  ghost predicate WindowState(options: Options, bucket: Bucket, times: seq<Timestamp>) {
    var start := bucket.resetAt - options.windowMs;
    && bucket.count >= 1
    && (forall t :: t in times ==> t < bucket.resetAt)
    && CountIn(times, start, bucket.resetAt) == Least(bucket.count, Most(options))
    && (forall x :: start - options.windowMs < x <= start ==> CountIn(times, x, start) <= Most(options))
  }

  function Least(a: nat, b: nat): nat {
    if a < b then a else b
  }

  ghost predicate WindowsBounded(options: Options, times: seq<Timestamp>) {
    forall x :: InWindow(options, times, x) <= 2 * Most(options)
  }

  function InWindow(options: Options, times: seq<Timestamp>, x: Timestamp): nat {
    CountIn(times, x, x + options.windowMs)
  }

  lemma OpenBucket(options: Options, previous: Option<Bucket>, times: seq<Timestamp>, now: Timestamp)
    requires options.windowMs > 0
    requires previous.None? ==> times == []
    requires previous.Some? ==> WindowState(options, previous.value, times) && previous.value.resetAt <= now
    ensures WindowState(options, Bucket(1, now + options.windowMs), times + [now])
  {
    FirstOfBucket(options, previous, times, now);
    forall x | now - options.windowMs < x <= now ensures CountIn(times + [now], x, now) <= Most(options) {
      TailOfBucket(options, previous, times, now, x);
    }
  }

  lemma FirstOfBucket(options: Options, previous: Option<Bucket>, times: seq<Timestamp>, now: Timestamp)
    requires options.windowMs > 0
    requires previous.None? ==> times == []
    requires previous.Some? ==> WindowState(options, previous.value, times) && previous.value.resetAt <= now
    ensures CountIn(times + [now], now, now + options.windowMs) == 1
  {
    CountNone(times, now, now + options.windowMs);
    CountNext(times, now, now, now + options.windowMs);
  }

  lemma TailOfBucket(options: Options, previous: Option<Bucket>, times: seq<Timestamp>, now: Timestamp, x: Timestamp)
    requires previous.None? ==> times == []
    requires previous.Some? ==> WindowState(options, previous.value, times) && previous.value.resetAt <= now
    requires now - options.windowMs < x
    ensures CountIn(times + [now], x, now) <= Most(options)
  {
    CountNext(times, now, x, now);
    if previous.Some? {
      var start := previous.value.resetAt - options.windowMs;
      CountWider(times, x, now, start, now);
      CountSame(times, start, now, previous.value.resetAt);
    }
  }

  lemma FillBucket(options: Options, bucket: Bucket, times: seq<Timestamp>, now: Timestamp)
    requires options.windowMs > 0 && WindowState(options, bucket, times)
    requires bucket.resetAt - options.windowMs <= now < bucket.resetAt
    ensures var (after, wait) := Consumed(options, Some(bucket), now);
            WindowState(options, after, if wait.None? then times + [now] else times)
  {
    var start := bucket.resetAt - options.windowMs;
    CountNext(times, now, start, bucket.resetAt);
    forall x | start - options.windowMs < x <= start
      ensures CountIn(times + [now], x, start) == CountIn(times, x, start)
    {
      CountNext(times, now, x, start);
    }
  }

  /** A window holding `now` is covered by the current bucket and the tail of the one before. */
  lemma WindowAtNow(options: Options, bucket: Bucket, times: seq<Timestamp>, now: Timestamp, x: Timestamp)
    requires options.windowMs > 0 && WindowState(options, bucket, times)
    requires bucket.resetAt - options.windowMs <= now && Within(now, x, x + options.windowMs)
    ensures CountIn(times, x, x + options.windowMs) <= 2 * Most(options)
  {
    var start, end := bucket.resetAt - options.windowMs, x + options.windowMs;
    if x <= start {
      CountSplit(times, x, start, end);
      CountWider(times, start, end, start, bucket.resetAt);
    } else {
      CountWider(times, x, end, start, end);
      CountSame(times, start, end, bucket.resetAt);
    }
  }

  /** The key's state after a run: no bucket and nothing accepted, or a current bucket opened at or before the
      latest time. */
  ghost predicate KeyState(options: Options, bucket: Option<Bucket>, times: seq<Timestamp>, latest: Timestamp) {
    && (bucket.None? ==> times == [])
    && (bucket.Some? ==> WindowState(options, bucket.value, times) && bucket.value.resetAt - options.windowMs <= latest)
    && WindowsBounded(options, times)
  }

  lemma AcceptKeepsWindows(options: Options, bucket: Bucket, times: seq<Timestamp>, now: Timestamp)
    requires options.windowMs > 0 && WindowState(options, bucket, times + [now]) && WindowsBounded(options, times)
    requires bucket.resetAt - options.windowMs <= now
    ensures WindowsBounded(options, times + [now])
  {
    forall x ensures InWindow(options, times + [now], x) <= 2 * Most(options) {
      assert InWindow(options, times, x) <= 2 * Most(options);
      if Within(now, x, x + options.windowMs) {
        WindowAtNow(options, bucket, times + [now], now, x);
      } else {
        CountNext(times, now, x, x + options.windowMs);
      }
    }
  }

  lemma StepKeepsKeyState(options: Options, bucket: Option<Bucket>, times: seq<Timestamp>, latest: Timestamp,
                          now: Timestamp)
    requires options.windowMs > 0 && KeyState(options, bucket, times, latest) && latest <= now
    ensures var (after, wait) := Consumed(options, bucket, now);
            KeyState(options, Some(after), if wait.None? then times + [now] else times, now)
  {
    var (after, wait) := Consumed(options, bucket, now);
    if bucket.None? || bucket.value.resetAt <= now {
      OpenBucket(options, bucket, times, now);
    } else {
      FillBucket(options, bucket.value, times, now);
    }
    if wait.None? {
      AcceptKeepsWindows(options, after, times, now);
    }
  }

  lemma {:induction false} RunKeepsKeyState(options: Options, requests: seq<Request>, key: Key, latest: Timestamp)
    requires options.windowMs > 0 && Monotone(requests) && forall r :: r in requests ==> r.at <= latest
    ensures KeyState(options, Lookup(BucketsAfter(options, requests), key),
                     AcceptedTimes(options, requests, key), latest)
  {
    if requests != [] {
      var front, r := requests[..|requests| - 1], requests[|requests| - 1];
      forall q | q in front ensures q.at <= r.at {
        var i :| 0 <= i < |front| && front[i] == q;
        assert requests[i].at <= requests[|requests| - 1].at;
      }
      assert r in requests;
      RunKeepsKeyState(options, front, key, r.at);
      if r.key == key {
        StepKeepsKeyState(options, Lookup(BucketsAfter(options, front), key), AcceptedTimes(options, front, key),
                          r.at, r.at);
      }
    }
  }

  /** Any half-open interval as long as the window holds at most twice the limit of one key's accepted requests. */
  lemma AtMostTwicePerWindow(options: Options, requests: seq<Request>, key: Key, x: Timestamp)
    requires Monotone(requests)
    ensures CountIn(AcceptedTimes(options, requests, key), x, x + options.windowMs) <= 2 * Most(options)
  {
    var accepted := AcceptedTimes(options, requests, key);
    if options.windowMs <= 0 {
      CountNone(accepted, x, x + options.windowMs);
    } else {
      var latest := if requests == [] then 0 else requests[|requests| - 1].at;
      forall r | r in requests ensures r.at <= latest {
        var i :| 0 <= i < |requests| && requests[i] == r;
      }
      RunKeepsKeyState(options, requests, key, latest);
      assert InWindow(options, accepted, x) <= 2 * Most(options);
    }
  }

  lemma CurrentBucketBounded(options: Options, requests: seq<Request>, key: Key)
    requires options.windowMs > 0 && Monotone(requests) && requests != []
    ensures var current := Lookup(BucketsAfter(options, requests), key);
            current.Some? ==>
              CountIn(AcceptedTimes(options, requests, key), current.value.resetAt - options.windowMs,
                      current.value.resetAt) <= Most(options)
  {
    LatestIsLast(requests);
    RunKeepsKeyState(options, requests, key, requests[|requests| - 1].at);
  }

  /** The window of any bucket, once opened, never holds more than the limit, however the run goes on. */
  lemma {:induction false} BucketWindowBounded(options: Options, requests: seq<Request>, n: nat, key: Key,
                                               bucket: Bucket)
    requires options.windowMs > 0 && Monotone(requests) && 0 < n <= |requests|
    requires Lookup(BucketsAfter(options, requests[..n]), key) == Some(bucket)
    ensures CountIn(AcceptedTimes(options, requests, key), bucket.resetAt - options.windowMs, bucket.resetAt) <=
            Most(options)
    ensures var current := Lookup(BucketsAfter(options, requests), key);
            current.Some? && (current.value.resetAt == bucket.resetAt || bucket.resetAt <= requests[|requests| - 1].at)
  {
    var front, r := requests[..|requests| - 1], requests[|requests| - 1];
    CurrentBucketBounded(options, requests, key);
    if n == |requests| {
      assert requests[..n] == requests;
    } else {
      assert front[..n] == requests[..n] && requests[|front| - 1].at <= r.at;
      BucketWindowBounded(options, front, n, key, bucket);
      if Lookup(BucketsAfter(options, requests), key).value.resetAt != bucket.resetAt {
        CountNext(AcceptedTimes(options, front, key), r.at, bucket.resetAt - options.windowMs, bucket.resetAt);
      }
    }
  }

  lemma LatestIsLast(requests: seq<Request>)
    requires Monotone(requests) && requests != []
    ensures forall r :: r in requests ==> r.at <= requests[|requests| - 1].at
  {
    forall r | r in requests ensures r.at <= requests[|requests| - 1].at {
      var i :| 0 <= i < |requests| && requests[i] == r;
    }
  }

  /** The bucket is still open, and its window holds as many accepted requests as it may. */
  predicate Full(options: Options, bucket: Option<Bucket>, accepted: seq<Timestamp>, now: Timestamp) {
    bucket.Some? && now < bucket.value.resetAt &&
    CountIn(accepted, bucket.value.resetAt - options.windowMs, bucket.value.resetAt) == Most(options)
  }

  lemma RefusedWhenFull(options: Options, bucket: Option<Bucket>, times: seq<Timestamp>, now: Timestamp)
    requires KeyState(options, bucket, times, now)
    ensures Consumed(options, bucket, now).1.Some? <==> Full(options, bucket, times, now)
  {}

  lemma MonotonePrefix(requests: seq<Request>, r: Request)
    requires Monotone(requests + [r])
    ensures Monotone(requests) && forall q :: q in requests ==> q.at <= r.at
  {
    var all := requests + [r];
    assert forall i :: 0 <= i < |requests| ==> all[i] == requests[i];
    forall i, j | 0 <= i < j < |requests| ensures requests[i].at <= requests[j].at {
      assert all[i].at <= all[j].at;
    }
    forall q | q in requests ensures q.at <= r.at {
      var i :| 0 <= i < |requests| && requests[i] == q;
      assert all[i].at <= all[|requests|].at;
    }
  }

  lemma KeyStateNow(options: Options, requests: seq<Request>, r: Request)
    requires options.windowMs > 0 && Monotone(requests + [r])
    ensures KeyState(options, Lookup(BucketsAfter(options, requests), r.key), AcceptedTimes(options, requests, r.key),
                     r.at)
  {
    MonotonePrefix(requests, r);
    RunKeepsKeyState(options, requests, r.key, r.at);
  }

  lemma RefusalFacts(options: Options, requests: seq<Request>, r: Request, bucket: Option<Bucket>,
                     accepted: seq<Timestamp>)
    requires options.windowMs > 0 && Monotone(requests + [r])
    requires bucket == Lookup(BucketsAfter(options, requests), r.key)
    requires accepted == AcceptedTimes(options, requests, r.key)
    ensures Consumed(options, bucket, r.at).1.Some? <==> Full(options, bucket, accepted, r.at)
  {
    KeyStateNow(options, requests, r);
    RefusedWhenFull(options, bucket, accepted, r.at);
  }

  lemma AcceptedNext(options: Options, requests: seq<Request>, r: Request)
    ensures AcceptedTimes(options, requests + [r], r.key) ==
            AcceptedTimes(options, requests, r.key) +
            if Consumed(options, Lookup(BucketsAfter(options, requests), r.key), r.at).1.None? then [r.at] else []
  {
    assert (requests + [r])[..|requests|] == requests;
  }

  /** A request is refused exactly when its key's bucket is still open and the bucket's window, which an accepted
      request opened, already holds the limit. */
  lemma RefusedIffFull(options: Options, requests: seq<Request>, r: Request)
    requires options.windowMs > 0 && Monotone(requests + [r])
    ensures var bucket, accepted := Lookup(BucketsAfter(options, requests), r.key),
                                    AcceptedTimes(options, requests, r.key);
            && (bucket.Some? ==> bucket.value.resetAt - options.windowMs in accepted)
            && AcceptedTimes(options, requests + [r], r.key) ==
               if Full(options, bucket, accepted, r.at) then accepted else accepted + [r.at]
  {
    RefusalFacts(options, requests, r, Lookup(BucketsAfter(options, requests), r.key),
                 AcceptedTimes(options, requests, r.key));
    AcceptedNext(options, requests, r);
    OpenedByAccepted(options, requests, r.key);
  }

  lemma {:induction false} OpenedByAccepted(options: Options, requests: seq<Request>, key: Key)
    ensures var bucket := Lookup(BucketsAfter(options, requests), key);
            bucket.Some? ==> bucket.value.resetAt - options.windowMs in AcceptedTimes(options, requests, key)
  {
    if requests != [] {
      OpenedByAccepted(options, requests[..|requests| - 1], key);
    }
  }

  // ----- waiting, and other keys

  /** A refused request is told the fewest whole seconds after which its bucket has expired: asking again then
      succeeds. */
  lemma RetryAfterSuffices(options: Options, bucket: Option<Bucket>, now: Timestamp, later: Timestamp)
    requires Consumed(options, bucket, now).1.Some?
    ensures var (refused, wait) := Consumed(options, bucket, now);
            && wait.value >= 1
            && now + 1000 * (wait.value - 1) < refused.resetAt <= now + 1000 * wait.value
            && (later >= now + 1000 * wait.value ==> Consumed(options, Some(refused), later).1 == None)
  {
    var ms := bucket.value.resetAt - now;
    assert 1000 * (CeilSeconds(ms) - 1) < ms <= 1000 * CeilSeconds(ms);
  }

  function HasKey(key: Key): Request -> bool {
    (r: Request) => r.key == key
  }

  /** What a key is allowed depends on its own requests only. */
  lemma {:induction false} OtherKeysIrrelevant(options: Options, requests: seq<Request>, key: Key)
    ensures var own := Sorting.Filter(requests, HasKey(key));
            && AcceptedTimes(options, own, key) == AcceptedTimes(options, requests, key)
            && Lookup(BucketsAfter(options, own), key) == Lookup(BucketsAfter(options, requests), key)
  {
    if requests != [] {
      var front, r := requests[..|requests| - 1], requests[|requests| - 1];
      OtherKeysIrrelevant(options, front, key);
      var own := Sorting.Filter(front, HasKey(key));
      assert (own + [r])[..|own|] == own;
    }
  }
}
