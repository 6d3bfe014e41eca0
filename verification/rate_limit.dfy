/**
 * The per-IP sliding-window rate limiter in front of the upload route:
 * a request is refused when its IP already has 10 stored requests less
 * than 60 seconds old, and the whole table is dropped first once it tracks
 * more than 10000 IPs. The clock reading and the client IP are parameters.
 */
module RateLimit {

  const WINDOW_MS: int := 60 * 1000
  const MAX_REQUESTS: nat := 10
  const MAX_TRACKED_IPS: nat := 10000

  type Ip = string

  /** A timestamp still counts at `now` when it is less than one window old. */
  predicate InWindow(now: int, t: int) {
    now - t < WINDOW_MS
  }

  /** `Array.prototype.filter` with the in-window test: order and repeats are kept. */
  function Recent(ts: seq<int>, now: int): (r: seq<int>)
    ensures |r| <= |ts|
    ensures forall i :: 0 <= i < |r| ==> InWindow(now, r[i])
  {
    if ts == [] then []
    else
      (if InWindow(now, ts[0]) then [ts[0]] else []) + Recent(ts[1..], now)
  }

  /** The number of timestamps in `ts` still inside the window at `now`. */
  function CountInWindow(ts: seq<int>, now: int): nat {
    if ts == [] then 0
    else CountInWindow(ts[..|ts| - 1], now) + if InWindow(now, ts[|ts| - 1]) then 1 else 0
  }

  /** `requestCounts.get(ip) || []`. */
  function Lookup(counts: map<Ip, seq<int>>, ip: Ip): seq<int> {
    if ip in counts then counts[ip] else []
  }

  /** The outcome of one call: admitted or answered 429, and the table afterwards. */
  datatype Decision = Decision(admitted: bool, counts: map<Ip, seq<int>>)

  /** One call of the middleware on the table `counts`. */
  function Step(counts: map<Ip, seq<int>>, ip: Ip, now: int): Decision {
    var live := if |counts| > MAX_TRACKED_IPS then map[] else counts;
    var recent := Recent(Lookup(live, ip), now);
    if |recent| >= MAX_REQUESTS then Decision(false, live)
    else Decision(true, live[ip := recent + [now]])
  }

  /** Every stored list holds at most `MAX_REQUESTS` timestamps. */
  ghost predicate Bounded(counts: map<Ip, seq<int>>) {
    forall ip :: ip in counts ==> |counts[ip]| <= MAX_REQUESTS
  }

  class RateLimiter {
    var requestCounts: map<Ip, seq<int>>

    ghost predicate Valid()
      reads this
    {
      Bounded(requestCounts) && |requestCounts| <= MAX_TRACKED_IPS + 1
    }

    constructor ()
      ensures Valid() && requestCounts == map[]
    {
      requestCounts := map[];
    }

    /** `rateLimit`: `admitted` is a call of `next()`, otherwise a 429 answer. */
    method RateLimit(ip: Ip, now: int) returns (admitted: bool)
      requires Valid()
      modifies this
      ensures Valid()
      ensures Decision(admitted, requestCounts) == Step(old(requestCounts), ip, now)
    {
      if |requestCounts| > MAX_TRACKED_IPS {
        requestCounts := map[];
      }
      var userRequests := Lookup(requestCounts, ip);
      var recentRequests := Recent(userRequests, now);
      if |recentRequests| >= MAX_REQUESTS {
        return false;
      }
      recentRequests := recentRequests + [now];
      requestCounts := requestCounts[ip := recentRequests];
      admitted := true;
      StepKeepsValid(old(requestCounts), ip, now);
    }
  }

  /** Filtering a list extended at the end extends the filtered list by that entry, if it is in the window. */
  lemma {:induction false} RecentSnoc(init: seq<int>, x: int, now: int)
    ensures Recent(init + [x], now) == Recent(init, now) + if InWindow(now, x) then [x] else []
  {
    if init == [] {
      assert Recent([x], now) == (if InWindow(now, x) then [x] else []) + Recent([], now);
    } else {
      var ts := init + [x];
      var head := if InWindow(now, init[0]) then [init[0]] else [];
      var last := if InWindow(now, x) then [x] else [];
      assert ts[0] == init[0] && ts[1..] == init[1..] + [x];
      assert Recent(ts, now) == head + Recent(init[1..] + [x], now);
      RecentSnoc(init[1..], x, now);
      var mid := Recent(init[1..], now);
      assert Recent(init, now) == head + mid;
      assert head + (mid + last) == (head + mid) + last;
    }
  }

  /** Filtering keeps every in-window timestamp as often as it occurs, and no other. */
  lemma {:induction false} RecentMultiset(ts: seq<int>, now: int)
    ensures forall t :: multiset(Recent(ts, now))[t] == if InWindow(now, t) then multiset(ts)[t] else 0
  {
    if ts != [] {
      RecentMultiset(ts[1..], now);
      assert ts == [ts[0]] + ts[1..];
    }
  }

  /** Filtering keeps exactly the in-window entries, so its length is their count. */
  lemma {:induction false} RecentCounts(ts: seq<int>, now: int)
    ensures |Recent(ts, now)| == CountInWindow(ts, now)
  {
    if ts != [] {
      var init := ts[..|ts| - 1];
      RecentCounts(init, now);
      assert ts == init + [ts[|ts| - 1]];
      RecentSnoc(init, ts[|ts| - 1], now);
    }
  }

  /** A request is rejected exactly when its IP already has 10 or more in-window timestamps (and no clear fired). */
  lemma RejectedIffWindowFull(counts: map<Ip, seq<int>>, ip: Ip, now: int)
    ensures !Step(counts, ip, now).admitted <==>
              |counts| <= MAX_TRACKED_IPS && CountInWindow(Lookup(counts, ip), now) >= MAX_REQUESTS
  {
    RecentCounts(Lookup(counts, ip), now);
  }

  /** A rejected request leaves the table as it was. */
  lemma RejectedUnchanged(counts: map<Ip, seq<int>>, ip: Ip, now: int)
    requires !Step(counts, ip, now).admitted
    ensures Step(counts, ip, now).counts == counts
  {
  }

  /**
   * An admitted request stores, for its IP, the in-window timestamps in their
   * old order followed by `now`. The tracked IPs become those of the table
   * (empty if it was cleared) plus this one, and every other IP keeps its
   * entry, key and list alike.
   */
  lemma AdmittedRecordsNow(counts: map<Ip, seq<int>>, ip: Ip, now: int)
    requires Step(counts, ip, now).admitted
    ensures var live := if |counts| > MAX_TRACKED_IPS then map[] else counts;
            var after := Step(counts, ip, now).counts;
            && after.Keys == live.Keys + {ip}
            && after[ip] == Recent(Lookup(live, ip), now) + [now]
            && forall o :: o in live && o != ip ==> after[o] == live[o]
    ensures var live := if |counts| > MAX_TRACKED_IPS then map[] else counts;
            |Step(counts, ip, now).counts| == if ip in live then |live| else |live| + 1
  {
    var live := if |counts| > MAX_TRACKED_IPS then map[] else counts;
    var after := Step(counts, ip, now).counts;
    assert after.Keys == live.Keys + {ip};
    if ip !in live {
      assert |live.Keys + {ip}| == |live.Keys| + 1;
    } else {
      assert live.Keys + {ip} == live.Keys;
    }
  }

  /** Once the table tracks more than 10000 IPs it is emptied first, so the request is admitted alone. */
  lemma ClearedWhenFull(counts: map<Ip, seq<int>>, ip: Ip, now: int)
    requires |counts| > MAX_TRACKED_IPS
    ensures Step(counts, ip, now) == Decision(true, map[ip := [now]])
  {
    var empty: map<Ip, seq<int>> := map[];
    assert Recent([], now) == [];
    assert [] + [now] == [now];
    assert empty[ip := [now]] == map[ip := [now]];
  }

  /** Every call keeps each stored list at 10 entries or fewer and the table at most one IP over the limit. */
  lemma StepKeepsValid(counts: map<Ip, seq<int>>, ip: Ip, now: int)
    requires Bounded(counts) && |counts| <= MAX_TRACKED_IPS + 1
    ensures var after := Step(counts, ip, now).counts;
            Bounded(after) && |after| <= MAX_TRACKED_IPS + 1
  {
    var live := if |counts| > MAX_TRACKED_IPS then map[] else counts;
    var after := Step(counts, ip, now).counts;
    if Step(counts, ip, now).admitted {
      assert after.Keys == live.Keys + {ip};
      assert |after.Keys| <= |live.Keys| + 1;
    }
  }
}
