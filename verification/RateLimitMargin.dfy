/** How late an INCR may be, relative to its clock reading, before a counter's expiry lets a
    bucket overflow: exact conditions for every lag and all limits. */
module RateLimitMargin {
  import opened Arith
  import opened Text
  import opened RateLimitKeys
  import opened RateLimiter
  import opened RateLimitRuns
  import opened BurstOverflow
  import MinuteOverflow

  /** The five and ten seconds by which the counters outlive their buckets. */
  const MARGIN := Slack(5_000, 10_000)

  ghost predicate NeverOverflows(cfg: Rules, t: Target, w: Window, k: Slack) {
    forall s, offset, bucket: nat :: Reached(cfg, s, offset, k) ==> |Admitted(s, t, w, bucket)| <= cfg.limit(t, w)
  }

  lemma InvOf(cfg: Rules, s: State, w: Window, offset: int, k: Slack)
    requires Separating(cfg) && Reached(cfg, s, offset, k)
    ensures Inv(cfg, s, w, offset, k)
  {
    var trace, steps :| IsRun(cfg, trace, steps, offset, k) && trace[|steps|] == s;
    RunsKeepInv(cfg, trace, steps, w, offset, k, |steps|);
  }

  lemma ReachedBound(cfg: Rules, s: State, offset: int, k: Slack, t: Target, w: Window, bucket: nat)
    requires cfg.enabled && Separating(cfg) && Reached(cfg, s, offset, k)
    ensures |Admitted(s, t, w, bucket)| <= cfg.limit(t, w) * Lives(w, Lateness(k, w))
  {
    var trace, steps :| IsRun(cfg, trace, steps, offset, k) && trace[|steps|] == s;
    BucketBound(cfg, trace, steps, offset, k, |steps|, t, w, bucket);
  }

  lemma WithinMargin(cfg: Rules, t: Target, w: Window, k: Slack)
    requires cfg.enabled && Separating(cfg) && Lateness(k, w) <= Ttl(w) - Length(w)
    ensures NeverOverflows(cfg, t, w, k)
  {
    OneLifeExactlyWhen(w, Lateness(k, w));
    forall s, offset, bucket: nat | Reached(cfg, s, offset, k) ensures |Admitted(s, t, w, bucket)| <= cfg.limit(t, w) {
      ReachedBound(cfg, s, offset, k, t, w, bucket);
    }
  }

  // ---------------------------------------------------------------------------------------
  // How many checks of one burst bucket the minute's counter lets through

  lemma FirstLifeWithout(ids: set<nat>, value: nat -> nat, life: nat -> int, n: nat, lives: nat)
    requires Spread(ids, value, life, n, lives) && n >= 1
    requires forall id :: id in ids && life(id) == 0 ==> value(id) != 1
    ensures |InLife(ids, life, 0)| <= n - 1
  {
    Pigeonhole(InLife(ids, life, 0), (id: nat) => if value(id) >= 1 then value(id) - 1 else 0, n - 1);
  }

  lemma LaterLives(ids: set<nat>, value: nat -> nat, life: nat -> int, n: nat, lives: nat)
    requires Spread(ids, value, life, n, lives) && lives >= 1
    ensures |ids - InLife(ids, life, 0)| <= n * (lives - 1)
  {
    var earlier := (id: nat) => life(id) - 1;
    Earlier(ids, value, life, earlier, n, lives);
    LivesPigeonhole(ids - InLife(ids, life, 0), value, earlier, n, lives - 1);
  }

  lemma Earlier(ids: set<nat>, value: nat -> nat, life: nat -> int, earlier: nat -> int, n: nat, lives: nat)
    requires Spread(ids, value, life, n, lives) && lives >= 1 && forall id :: earlier(id) == life(id) - 1
    ensures Spread(ids - InLife(ids, life, 0), value, earlier, n, lives - 1)
  {
  }

  /** Numbers spread over lives, the first number of the first life not among them. */
  lemma WithoutFirst(ids: set<nat>, value: nat -> nat, life: nat -> int, n: nat, lives: nat)
    requires Spread(ids, value, life, n, lives) && n >= 1 && lives >= 1
    requires forall id :: id in ids && life(id) == 0 ==> value(id) != 1
    ensures |ids| <= n * lives - 1
  {
    FirstLifeWithout(ids, value, life, n, lives);
    LaterLives(ids, value, life, n, lives);
    InTwo(ids, InLife(ids, life, 0));
    OneMoreTime(n, lives);
  }

  /** The most that the lives of the minute's counter can admit of one burst bucket: all of them
      when the bucket's own checks start it, one less when an earlier check starts it sooner. */
  function MostInBurst(limit: nat, k: Slack): int {
    var own, early := limit * MinuteLives(FirstBucket, k), limit * MinuteLives(LastBucket, k) - 1;
    if early > own then early else own
  }

  /** Checks of one burst bucket, all counted by minute counters born no earlier than `base`. */
  lemma BornSince(cfg: Rules, s: State, offset: int, k: Slack, t: Target, bucket: nat, base: int, lives: nat)
    requires cfg.enabled && Inv(cfg, s, Sustained, offset, k)
    requires forall id :: id in Admitted(s, t, Burst, bucket) ==> base <= TallyOf(s, Sustained, id).born
    requires 10_000 * bucket + 9_999 + offset + k.sustained < base + 70_000 * lives
    ensures CountsSpread(s, Sustained, Admitted(s, t, Burst, bucket), base, cfg.limit(t, Sustained), lives)
  {
    var ids := Admitted(s, t, Burst, bucket);
    forall id | id in ids
      ensures 1 <= TallyOf(s, Sustained, id).value <= cfg.limit(t, Sustained)
      ensures 0 <= Life(TallyOf(s, Sustained, id), Sustained, base) < lives
    {
      AdmittedTally(cfg, s, offset, k, t, bucket, id);
    }
    forall i, j | i in ids && j in ids && i != j
                  && Life(TallyOf(s, Sustained, i), Sustained, base) == Life(TallyOf(s, Sustained, j), Sustained, base)
      ensures TallyOf(s, Sustained, i).value != TallyOf(s, Sustained, j).value
    {
      TalliesApart(cfg, s, offset, k, t, bucket, i, j);
      SameLife(TallyOf(s, Sustained, i), TallyOf(s, Sustained, j), Sustained, base);
    }
  }

  lemma AdmittedTally(cfg: Rules, s: State, offset: int, k: Slack, t: Target, bucket: nat, id: nat)
    requires cfg.enabled && Inv(cfg, s, Sustained, offset, k) && id in Admitted(s, t, Burst, bucket)
    ensures Sustained in s.checks[id].counts
    ensures var x := TallyOf(s, Sustained, id);
            && 1 <= x.value <= cfg.limit(t, Sustained)
            && 60_000 * (bucket / 6) + offset <= x.born <= 10_000 * bucket + 9_999 + offset + k.sustained
            && (x.value == 1 ==> 10_000 * bucket + offset <= x.born)
  {
    var c := s.checks[id];
    assert Progress(cfg, c) && Covered(cfg, s, c, Sustained) && InTime(c, Sustained, offset, k);
    assert c.clock / 60_000 == bucket / 6;
  }

  lemma TalliesApart(cfg: Rules, s: State, offset: int, k: Slack, t: Target, bucket: nat, i: nat, j: nat)
    requires cfg.enabled && Inv(cfg, s, Sustained, offset, k) && i != j
    requires i in Admitted(s, t, Burst, bucket) && j in Admitted(s, t, Burst, bucket)
    ensures Apart(TallyOf(s, Sustained, i), TallyOf(s, Sustained, j), Sustained)
  {
    AdmittedTally(cfg, s, offset, k, t, bucket, i);
    AdmittedTally(cfg, s, offset, k, t, bucket, j);
    assert CountsDiffer(s.checks[i], s.checks[j], Sustained);
    assert s.checks[i].clock / 60_000 == bucket / 6 && s.checks[j].clock / 60_000 == bucket / 6;
  }

  /** A check of the bucket was the first in the first life: then all lives are the bucket's own. */
  lemma OwnLives(cfg: Rules, s: State, offset: int, k: Slack, t: Target, bucket: nat, id: nat)
    requires cfg.enabled && Inv(cfg, s, Sustained, offset, k) && id in Admitted(s, t, Burst, bucket)
    requires TallyOf(s, Sustained, id).value == 1 && TallyOf(s, Sustained, id).born < 60_000 * (bucket / 6) + offset + 70_000
    ensures |Admitted(s, t, Burst, bucket)| <= cfg.limit(t, Sustained) * MinuteLives(FirstBucket, k)
  {
    var base := 10_000 * bucket + offset;
    var ids := Admitted(s, t, Burst, bucket);
    AdmittedTally(cfg, s, offset, k, t, bucket, id);
    forall j | j in ids ensures base <= TallyOf(s, Sustained, j).born {
      AdmittedTally(cfg, s, offset, k, t, bucket, j);
      if j != id {
        TalliesApart(cfg, s, offset, k, t, bucket, id, j);
      }
    }
    BornSince(cfg, s, offset, k, t, bucket, base, MinuteLives(FirstBucket, k));
    LivesPigeonhole(ids, (id: nat) => TallyOf(s, Sustained, id).value,
                    (id: nat) => Life(TallyOf(s, Sustained, id), Sustained, base), cfg.limit(t, Sustained), MinuteLives(FirstBucket, k));
  }

  lemma MinuteBoundsBurst(cfg: Rules, s: State, offset: int, k: Slack, t: Target, bucket: nat)
    requires cfg.enabled && Inv(cfg, s, Sustained, offset, k) && 1 <= cfg.limit(t, Sustained)
    ensures |Admitted(s, t, Burst, bucket)| <= MostInBurst(cfg.limit(t, Sustained), k)
  {
    var base, lives := 60_000 * (bucket / 6) + offset, MinuteLives(LastBucket, k);
    var ids := Admitted(s, t, Burst, bucket);
    if id :| id in ids && TallyOf(s, Sustained, id).value == 1 && Life(TallyOf(s, Sustained, id), Sustained, base) == 0 {
      OwnLives(cfg, s, offset, k, t, bucket, id);
    } else {
      forall id | id in ids ensures base <= TallyOf(s, Sustained, id).born {
        AdmittedTally(cfg, s, offset, k, t, bucket, id);
      }
      BornSince(cfg, s, offset, k, t, bucket, base, lives);
      WithoutFirst(ids, (id: nat) => TallyOf(s, Sustained, id).value,
                   (id: nat) => Life(TallyOf(s, Sustained, id), Sustained, base), cfg.limit(t, Sustained), lives);
    }
  }

  /** The burst bound holds over all runs exactly when no admitted check's INCR can be more than
      five seconds later than another's, or the minute's counter lets no more through anyway. */
  lemma BurstMarginIsExact(cfg: Rules, t: Target, k: Slack)
    requires Open(cfg, t) && Separating(cfg) && 1 <= cfg.limit(t, Burst) && 1 <= cfg.limit(t, Sustained)
    ensures NeverOverflows(cfg, t, Burst, k) <==>
            Lateness(k, Burst) <= MARGIN.burst || MostInBurst(cfg.limit(t, Sustained), k) <= cfg.limit(t, Burst)
  {
    if Lateness(k, Burst) <= MARGIN.burst {
      WithinMargin(cfg, t, Burst, k);
    } else if MostInBurst(cfg.limit(t, Sustained), k) <= cfg.limit(t, Burst) {
      forall s, offset, bucket: nat | Reached(cfg, s, offset, k) ensures |Admitted(s, t, Burst, bucket)| <= cfg.limit(t, Burst) {
        InvOf(cfg, s, Sustained, offset, k);
        MinuteBoundsBurst(cfg, s, offset, k, t, bucket);
      }
    } else {
      var r, bucket := LateBurst(cfg, t, k);
      assert !NeverOverflows(cfg, t, Burst, k);
    }
  }

  /** Otherwise some run overflows a burst bucket. */
  lemma LateBurst(cfg: Rules, t: Target, k: Slack) returns (r: State, bucket: nat)
    requires Open(cfg, t) && Separating(cfg) && 1 <= cfg.limit(t, Burst) && 1 <= cfg.limit(t, Sustained)
    requires Lateness(k, Burst) > 5_000 && MostInBurst(cfg.limit(t, Sustained), k) > cfg.limit(t, Burst)
    ensures Reached(cfg, r, 0, k) && |Admitted(r, t, Burst, bucket)| > cfg.limit(t, Burst)
  {
    var place := if cfg.limit(t, Sustained) * MinuteLives(FirstBucket, k) > cfg.limit(t, Burst) then FirstBucket else LastBucket;
    r := Overflow(cfg, t, place, k);
    bucket := Bucket(place);
  }

  // ---------------------------------------------------------------------------------------
  // How many checks of one minute its burst counters let through

  /** A minute bucket is made of six burst buckets. */
  lemma BurstsBoundMinute(s: State, t: Target, bucket: nat, most: nat)
    requires forall b: nat :: |Admitted(s, t, Burst, b)| <= most
    ensures |Admitted(s, t, Sustained, bucket)| <= most * 6
  {
    var all := BucketsAddUp(s, t, Burst, 6 * bucket, 6, most);
    forall id | id in Admitted(s, t, Sustained, bucket) ensures id in all {
      assert id in Admitted(s, t, Burst, s.checks[id].clock / 10_000);
    }
    SubsetSize(Admitted(s, t, Sustained, bucket), all);
  }

  /** The most that the lives of its burst counters can admit in one minute. */
  function MostInMinute(limit: nat, k: Slack): nat { limit * (6 * Lives(Burst, Lateness(k, Burst))) }

  lemma BurstsBound(cfg: Rules, s: State, offset: int, k: Slack, t: Target, bucket: nat)
    requires cfg.enabled && Separating(cfg) && Reached(cfg, s, offset, k)
    ensures |Admitted(s, t, Sustained, bucket)| <= MostInMinute(cfg.limit(t, Burst), k)
  {
    var limit, lives := cfg.limit(t, Burst), Lives(Burst, Lateness(k, Burst));
    forall b: nat ensures |Admitted(s, t, Burst, b)| <= limit * lives {
      ReachedBound(cfg, s, offset, k, t, Burst, b);
    }
    BurstsBoundMinute(s, t, bucket, limit * lives);
    assert limit * (6 * lives) == limit * lives * 6;
  }

  /** The minute bound holds over all runs exactly when the lag of the second INCR varies by at
      most ten seconds, or the burst counters let no more through anyway. */
  lemma SustainedMarginIsExact(cfg: Rules, t: Target, k: Slack)
    requires Open(cfg, t) && Separating(cfg) && 1 <= cfg.limit(t, Burst) && 1 <= cfg.limit(t, Sustained)
    ensures NeverOverflows(cfg, t, Sustained, k) <==>
            k.sustained <= MARGIN.sustained || MostInMinute(cfg.limit(t, Burst), k) <= cfg.limit(t, Sustained)
  {
    if k.sustained <= MARGIN.sustained {
      WithinMargin(cfg, t, Sustained, k);
    } else if MostInMinute(cfg.limit(t, Burst), k) <= cfg.limit(t, Sustained) {
      forall s, offset, bucket: nat | Reached(cfg, s, offset, k)
        ensures |Admitted(s, t, Sustained, bucket)| <= cfg.limit(t, Sustained)
      {
        BurstsBound(cfg, s, offset, k, t, bucket);
      }
    } else {
      var r := LateSustained(cfg, t, k);
      assert !NeverOverflows(cfg, t, Sustained, k);
    }
  }

  /** Otherwise some run overflows a minute bucket. */
  lemma LateSustained(cfg: Rules, t: Target, k: Slack) returns (r: State)
    requires Open(cfg, t) && Separating(cfg) && 1 <= cfg.limit(t, Burst) && 1 <= cfg.limit(t, Sustained)
    requires k.sustained > 10_000 && MostInMinute(cfg.limit(t, Burst), k) > cfg.limit(t, Sustained)
    ensures Reached(cfg, r, 0, k) && |Admitted(r, t, Sustained, 0)| > cfg.limit(t, Sustained)
  {
    r := MinuteOverflow.Overflow(cfg, t, k);
  }

  // ---------------------------------------------------------------------------------------
  // Three times the limit in one interval of Redis time

  /** Checks 0 to n - 1 passed, and their burst INCRs reached Redis between 14.999 s and 24.999 s. */
  ghost predicate ArrivedTogether(s: State, t: Target, n: nat) {
    && (forall id :: id in s.checks <==> 0 <= id < n)
    && (forall id :: 0 <= id < n ==> id in s.checks && Passed(s.checks[id], t) && Burst in s.checks[id].counts
                                     && 14_999 <= s.checks[id].counts[Burst].at < 24_999)
  }

  /** `m` of them are in burst bucket `j`, and the later buckets are untouched. */
  ghost predicate Gathered(cfg: Rules, s: State, t: Target, n: nat, j: nat, m: nat) {
    var burst, sustained := cfg.key(Burst, t, j), cfg.key(Sustained, t, 0);
    && ArrivedTogether(s, t, n) && 14_999 <= s.now < 24_999
    && (if n == 0 then sustained !in s.store && s.now == 14_999
        else sustained in s.store && s.store[sustained] == Entry(n, Some(84_999), 14_999))
    && (if m == 0 then burst !in s.store else burst in s.store && s.store[burst] == Entry(m, Some(s.now + 15_000), s.now))
    && forall b: nat :: b > j ==> cfg.key(Burst, t, b) !in s.store
  }

  lemma GatherOne(cfg: Rules, s: State, t: Target, n: nat, j: nat, m: nat, clock: nat) returns (r: State)
    requires Open(cfg, t) && Separating(cfg) && Reached(cfg, s, 0, MARGIN) && Gathered(cfg, s, t, n, j, m)
    requires clock / 10_000 == j && clock < 60_000 && 0 <= s.now - clock <= 5_000
    requires m < cfg.limit(t, Burst) && n < cfg.limit(t, Sustained)
    ensures Reached(cfg, r, 0, MARGIN) && r.now == s.now && Gathered(cfg, r, t, n + 1, j, m + 1)
  {
    var burst, sustained := cfg.key(Burst, t, j), cfg.key(Sustained, t, 0);
    assert burst != sustained && clock / 60_000 == 0;
    assert Counted(s.store, burst, s.now, Burst) == Entry(m + 1, Some(s.now + 15_000), s.now);
    assert Counted(s.store, sustained, s.now, Sustained) == Entry(n + 1, Some(84_999), 14_999);
    r := WholeCheck(cfg, s, n, t, clock, MARGIN);
    forall b: nat | b > j ensures cfg.key(Burst, t, b) !in r.store {
      assert cfg.key(Burst, t, b) != burst && cfg.key(Burst, t, b) != sustained;
    }
  }

  lemma {:induction false} GatherAll(cfg: Rules, s: State, t: Target, n: nat, j: nat, m: nat, clock: nat) returns (r: State)
    requires Open(cfg, t) && Separating(cfg) && Reached(cfg, s, 0, MARGIN) && Gathered(cfg, s, t, n, j, m)
    requires clock / 10_000 == j && clock < 60_000 && 0 <= s.now - clock <= 5_000
    requires m <= cfg.limit(t, Burst) && n + (cfg.limit(t, Burst) - m) <= cfg.limit(t, Sustained)
    ensures Reached(cfg, r, 0, MARGIN) && r.now == s.now
    ensures Gathered(cfg, r, t, n + (cfg.limit(t, Burst) - m), j, cfg.limit(t, Burst))
    decreases cfg.limit(t, Burst) - m
  {
    r := s;
    if m < cfg.limit(t, Burst) {
      r := GatherOne(cfg, s, t, n, j, m, clock);
      r := GatherAll(cfg, r, t, n + 1, j, m + 1, clock);
    }
  }

  /** Later, in the next bucket. */
  lemma NextGathering(cfg: Rules, s: State, t: Target, n: nat, j: nat, m: nat, now: int) returns (r: State)
    requires Reached(cfg, s, 0, MARGIN) && Gathered(cfg, s, t, n, j, m) && n > 0 && s.now <= now < 24_999
    ensures Reached(cfg, r, 0, MARGIN) && r.now == now && Gathered(cfg, r, t, n, j + 1, 0)
  {
    r := Wait(cfg, s, now, MARGIN);
  }

  /** The interval bound is tight: with the lag at its margin, ten seconds of Redis time can admit
      the burst limit three times over. */
  lemma ThreeBucketsInOneInterval(cfg: Rules, t: Target) returns (r: State)
    requires Open(cfg, t) && Separating(cfg) && 1 <= cfg.limit(t, Burst) && 3 * cfg.limit(t, Burst) <= cfg.limit(t, Sustained)
    ensures Reached(cfg, r, 0, MARGIN) && |AdmittedAt(r, t, Burst, 14_999, 14_999 + Length(Burst))| >= 3 * cfg.limit(t, Burst)
  {
    var b := cfg.limit(t, Burst);
    r := FirstGathering(cfg, t);
    r := GatherNext(cfg, r, t, b, 0, 15_000, 10_000);
    r := GatherNext(cfg, r, t, 2 * b, 1, 20_000, 20_000);
    AllArrived(r, t, 3 * b);
  }

  lemma FirstGathering(cfg: Rules, t: Target) returns (r: State)
    requires Open(cfg, t) && Separating(cfg) && 1 <= cfg.limit(t, Burst) <= cfg.limit(t, Sustained)
    ensures Reached(cfg, r, 0, MARGIN) && r.now == 14_999 && Gathered(cfg, r, t, cfg.limit(t, Burst), 0, cfg.limit(t, Burst))
  {
    ReachStart(cfg, 0, MARGIN);
    r := Wait(cfg, EMPTY, 14_999, MARGIN);
    r := GatherAll(cfg, r, t, 0, 0, 0, 9_999);
  }

  lemma GatherNext(cfg: Rules, s: State, t: Target, n: nat, j: nat, now: int, clock: nat) returns (r: State)
    requires Open(cfg, t) && Separating(cfg) && Reached(cfg, s, 0, MARGIN) && n > 0 && s.now <= now < 24_999
    requires Gathered(cfg, s, t, n, j, cfg.limit(t, Burst)) && n + cfg.limit(t, Burst) <= cfg.limit(t, Sustained)
    requires clock / 10_000 == j + 1 && clock < 60_000 && 0 <= now - clock <= 5_000
    ensures Reached(cfg, r, 0, MARGIN) && r.now == now
    ensures Gathered(cfg, r, t, n + cfg.limit(t, Burst), j + 1, cfg.limit(t, Burst))
  {
    r := NextGathering(cfg, s, t, n, j, cfg.limit(t, Burst), now);
    r := GatherAll(cfg, r, t, n, j + 1, 0, clock);
  }

  lemma AllArrived(s: State, t: Target, n: nat)
    requires ArrivedTogether(s, t, n)
    ensures |AdmittedAt(s, t, Burst, 14_999, 24_999)| >= n
  {
    IntervalSize(AdmittedAt(s, t, Burst, 14_999, 24_999), 0, n);
  }
}
