/** A run that overflows a burst bucket: its checks make their first INCR in two lives of the burst
    counter, and then wait for new lives of the minute's counter to make their second. */
module BurstOverflow {
  import opened Arith
  import opened Text
  import opened RateLimitKeys
  import opened RateLimiter
  import opened RateLimitRuns

  /** Where the run takes place: in the first burst bucket of the minute, or in the last one, with
      a check in the first one that starts the minute's counter early. */
  datatype Place = FirstBucket | LastBucket

  function Bucket(p: Place): nat { if p.FirstBucket? then 0 else 5 }
  function Opening(p: Place): nat { if p.FirstBucket? then 0 else 50_000 }
  function Closing(p: Place): nat { Opening(p) + 9_999 }

  /** Identifier of the first check in the bucket. */
  function First(p: Place): nat { if p.FirstBucket? then 0 else 1 }

  /** Lives of the minute's counter that a check of the bucket can reach. */
  function MinuteLives(p: Place, k: Slack): nat { 1 + (Closing(p) + k.sustained) / 70_000 }

  predicate InPlace(c: Check, t: Target, p: Place) { Passed(c, t) && c.clock / 10_000 == Bucket(p) }

  /** A check of the bucket that waits between its INCR calls, its first count within the limit. */
  predicate Waits(cfg: Rules, c: Check, t: Target, p: Place) {
    && Burst in c.counts && c == Halfway(t, Closing(p), c.counts[Burst]) && c.counts[Burst].value <= cfg.limit(t, Burst)
  }

  /** Checks `First(p)` to `x - 1` passed, and `x` to `n - 1` wait. */
  ghost predicate Queued(cfg: Rules, s: State, t: Target, p: Place, x: nat, n: nat) {
    && First(p) <= x <= n
    && (forall id :: id in s.checks <==> 0 <= id < n)
    && (forall id :: First(p) <= id < x ==> id in s.checks && InPlace(s.checks[id], t, p))
    && (forall id :: x <= id < n ==> id in s.checks && Waits(cfg, s.checks[id], t, p))
  }

  /** The minute's counter is in life `g`, at count `u`. */
  predicate MinuteAt(cfg: Rules, s: State, t: Target, g: nat, u: nat) {
    var key := cfg.key(Sustained, t, 0);
    key in s.store && s.store[key] == Entry(u, Some(70_000 * (g + 1)), 70_000 * g)
  }

  predicate BurstAt(cfg: Rules, s: State, t: Target, p: Place, e: Entry) {
    var key := cfg.key(Burst, t, Bucket(p));
    key in s.store && s.store[key] == e
  }

  // ---------------------------------------------------------------------------------------
  // First calls

  /** One check has passed in the bucket, as it opened. */
  ghost predicate Opened(cfg: Rules, s: State, t: Target, p: Place, m: nat) {
    && Queued(cfg, s, t, p, First(p) + 1, First(p) + m)
    && MinuteAt(cfg, s, t, 0, First(p) + 1)
    && BurstAt(cfg, s, t, p, Entry(m, Some(Opening(p) + 15_000), Opening(p)))
  }

  lemma OpenFirst(cfg: Rules, t: Target, k: Slack) returns (r: State)
    requires Open(cfg, t) && Separating(cfg) && 1 <= cfg.limit(t, Burst) && 1 <= cfg.limit(t, Sustained)
    ensures Reached(cfg, r, 0, k) && r.now == 0 && Opened(cfg, r, t, FirstBucket, 1)
    ensures r.store.Keys == {cfg.key(Burst, t, 0), cfg.key(Sustained, t, 0)}
  {
    ReachStart(cfg, 0, k);
    assert cfg.key(Burst, t, 0) != cfg.key(Sustained, t, 0);
    r := WholeCheck(cfg, EMPTY, 0, t, 0, k);
  }

  lemma OpenLast(cfg: Rules, t: Target, k: Slack) returns (r: State)
    requires Open(cfg, t) && Separating(cfg) && 1 <= cfg.limit(t, Burst) && 2 <= cfg.limit(t, Sustained)
    ensures Reached(cfg, r, 0, k) && r.now == 50_000 && Opened(cfg, r, t, LastBucket, 1)
  {
    var s := OpenFirst(cfg, t, k);
    var burst, sustained := cfg.key(Burst, t, 5), cfg.key(Sustained, t, 0);
    assert burst != cfg.key(Burst, t, 0) && burst != sustained;
    var s1 := Wait(cfg, s, 50_000, k);
    assert Counted(s1.store, burst, 50_000, Burst) == Entry(1, Some(65_000), 50_000);
    assert Counted(s1.store, sustained, 50_000, Sustained) == Entry(2, Some(70_000), 0);
    r := WholeCheck(cfg, s1, 1, t, 50_000, k);
  }

  lemma OneMoreWaits(cfg: Rules, s: State, r: State, t: Target, p: Place, x: nat, n: nat, v: Tally)
    requires Queued(cfg, s, t, p, x, n) && v.value <= cfg.limit(t, Burst)
    requires r.checks == s.checks[n := Halfway(t, Closing(p), v)]
    ensures Queued(cfg, r, t, p, x, n + 1)
  {
  }

  /** More checks make their first INCR as the bucket closes. */
  lemma {:induction false} QueueUp(cfg: Rules, s: State, t: Target, p: Place, m: nat, n: nat, k: Slack) returns (r: State)
    requires Open(cfg, t) && Separating(cfg) && Reached(cfg, s, 0, k) && s.now == Closing(p)
    requires Opened(cfg, s, t, p, m) && 1 <= m <= n <= cfg.limit(t, Burst)
    ensures Reached(cfg, r, 0, k) && r.now == Closing(p) && Opened(cfg, r, t, p, n)
    decreases n - m
  {
    r := s;
    if m < n {
      r := QueueOne(cfg, s, t, p, m, k);
      r := QueueUp(cfg, r, t, p, m + 1, n, k);
    }
  }

  lemma QueueOne(cfg: Rules, s: State, t: Target, p: Place, m: nat, k: Slack) returns (r: State)
    requires Open(cfg, t) && Separating(cfg) && Reached(cfg, s, 0, k) && s.now == Closing(p)
    requires Opened(cfg, s, t, p, m) && 1 <= m < cfg.limit(t, Burst)
    ensures Reached(cfg, r, 0, k) && r.now == Closing(p) && Opened(cfg, r, t, p, m + 1)
  {
    assert cfg.key(Burst, t, Bucket(p)) != cfg.key(Sustained, t, 0);
    assert Closing(p) / 10_000 == Bucket(p);
    var e := Entry(m + 1, Some(Opening(p) + 15_000), Opening(p));
    assert Counted(s.store, cfg.key(Burst, t, Bucket(p)), s.now, Burst) == e;
    r := FirstCall(cfg, s, First(p) + m, t, Closing(p), k);
    OneMoreWaits(cfg, s, r, t, p, First(p) + 1, First(p) + m, Tally(m + 1, Opening(p), s.now));
  }

  /** The last one comes when the burst counter's time is over, 5001 ms after its clock reading. */
  lemma QueueLast(cfg: Rules, s: State, t: Target, p: Place, k: Slack) returns (r: State)
    requires Open(cfg, t) && Separating(cfg) && Reached(cfg, s, 0, k) && s.now == Closing(p)
    requires 1 <= cfg.limit(t, Burst) && Opened(cfg, s, t, p, cfg.limit(t, Burst)) && k.burst > 5_000
    ensures Reached(cfg, r, 0, k) && r.now == Opening(p) + 15_000
    ensures Queued(cfg, r, t, p, First(p) + 1, First(p) + cfg.limit(t, Burst) + 1) && MinuteAt(cfg, r, t, 0, First(p) + 1)
  {
    assert cfg.key(Burst, t, Bucket(p)) != cfg.key(Sustained, t, 0);
    assert Closing(p) / 10_000 == Bucket(p);
    var s1 := Wait(cfg, s, Opening(p) + 15_000, k);
    assert Counted(s1.store, cfg.key(Burst, t, Bucket(p)), s1.now, Burst) == Entry(1, Some(s1.now + 15_000), s1.now);
    r := FirstCall(cfg, s1, First(p) + cfg.limit(t, Burst), t, Closing(p), k);
    OneMoreWaits(cfg, s, r, t, p, First(p) + 1, First(p) + cfg.limit(t, Burst), Tally(1, s1.now, s1.now));
  }

  // ---------------------------------------------------------------------------------------
  // Second calls

  /** The time of the second calls in life `g` of the minute's counter. */
  function Release(p: Place, g: nat): nat { if g == 0 then Opening(p) + 15_000 else 70_000 * g }

  /** The next check makes its second INCR. */
  lemma ReleaseOne(cfg: Rules, s: State, t: Target, p: Place, x: nat, n: nat, g: nat, u: nat, k: Slack) returns (r: State)
    requires Open(cfg, t) && Separating(cfg) && Reached(cfg, s, 0, k) && Queued(cfg, s, t, p, x, n) && x < n
    requires s.now == Release(p, g) && g < MinuteLives(p, k) && k.sustained > 5_000
    requires u < cfg.limit(t, Sustained)
    requires Counted(s.store, cfg.key(Sustained, t, 0), s.now, Sustained) == Entry(u + 1, Some(70_000 * (g + 1)), 70_000 * g)
    ensures Reached(cfg, r, 0, k) && r.now == s.now && Queued(cfg, r, t, p, x + 1, n) && MinuteAt(cfg, r, t, g, u + 1)
  {
    var c := s.checks[x];
    assert Waits(cfg, c, t, p);
    assert Closing(p) / 60_000 == 0 && Closing(p) / 10_000 == Bucket(p);
    r := SecondCall(cfg, s, x, t, Closing(p), c.counts[Burst], k);
  }

  lemma AnotherLife(limit: nat, lives: int, waiting: nat)
    requires limit >= 1 && 1 <= waiting <= limit * lives - limit
    ensures lives >= 2 && waiting - 1 <= limit * (lives - 1) - 1
  {
    OneMoreTime(limit, lives);
    FactorOrder(1, lives, limit);
  }

  /** There is room for all waiting checks in the lives that are left. */
  lemma {:induction false} ReleaseAll(cfg: Rules, s: State, t: Target, p: Place, x: nat, n: nat, g: nat, u: nat, k: Slack)
    returns (r: State)
    requires Open(cfg, t) && Separating(cfg) && Reached(cfg, s, 0, k) && Queued(cfg, s, t, p, x, n)
    requires s.now == Release(p, g) && g < MinuteLives(p, k) && k.sustained > 5_000
    requires MinuteAt(cfg, s, t, g, u) && 1 <= u <= cfg.limit(t, Sustained)
    requires n - x <= cfg.limit(t, Sustained) * (MinuteLives(p, k) - g) - u
    ensures Reached(cfg, r, 0, k) && Queued(cfg, r, t, p, n, n)
    decreases n - x
  {
    r := s;
    if x < n {
      if u < cfg.limit(t, Sustained) {
        r := ReleaseOne(cfg, s, t, p, x, n, g, u, k);
        r := ReleaseAll(cfg, r, t, p, x + 1, n, g, u + 1, k);
      } else {
        AnotherLife(u, MinuteLives(p, k) - g, n - x);
        var s1 := Wait(cfg, s, 70_000 * (g + 1), k);
        r := ReleaseOne(cfg, s1, t, p, x, n, g + 1, 0, k);
        r := ReleaseAll(cfg, r, t, p, x + 1, n, g + 1, 1, k);
      }
    }
  }

  lemma {:induction false} IntervalSize(ids: set<nat>, from: nat, n: nat)
    requires forall i :: from <= i < from + n ==> i in ids
    ensures |ids| >= n
    decreases n
  {
    if n > 0 {
      IntervalSize(ids - {from + n - 1}, from, n - 1);
    }
  }

  /** So the bucket admits one check more than its limit. */
  lemma Overflow(cfg: Rules, t: Target, p: Place, k: Slack) returns (r: State)
    requires Open(cfg, t) && Separating(cfg) && 1 <= cfg.limit(t, Burst) && First(p) + 1 <= cfg.limit(t, Sustained)
    requires Lateness(k, Burst) > 5_000
    requires cfg.limit(t, Burst) <= cfg.limit(t, Sustained) * MinuteLives(p, k) - First(p) - 1
    ensures Reached(cfg, r, 0, k) && |Admitted(r, t, Burst, Bucket(p))| > cfg.limit(t, Burst)
  {
    var b := cfg.limit(t, Burst);
    if p.FirstBucket? {
      r := OpenFirst(cfg, t, k);
    } else {
      r := OpenLast(cfg, t, k);
    }
    r := Wait(cfg, r, Closing(p), k);
    r := QueueUp(cfg, r, t, p, 1, b, k);
    r := QueueLast(cfg, r, t, p, k);
    r := ReleaseAll(cfg, r, t, p, First(p) + 1, First(p) + b + 1, 0, First(p) + 1, k);
    AllAdmitted(cfg, r, t, p, First(p) + b + 1);
  }

  lemma AllAdmitted(cfg: Rules, s: State, t: Target, p: Place, n: nat)
    requires Queued(cfg, s, t, p, n, n)
    ensures |Admitted(s, t, Burst, Bucket(p))| >= n - First(p)
  {
    forall id | First(p) <= id < n ensures id in Admitted(s, t, Burst, Bucket(p)) {
      assert InPlace(s.checks[id], t, p);
    }
    IntervalSize(Admitted(s, t, Burst, Bucket(p)), First(p), n - First(p));
  }
}
