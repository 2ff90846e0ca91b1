/** A run that overflows a minute bucket: its six burst buckets are filled in every life of their
    counters, in the order of time, and one last check waits for a new life of the minute's counter. */
module MinuteOverflow {
  import opened Arith
  import opened Text
  import opened RateLimitKeys
  import opened RateLimiter
  import opened RateLimitRuns

  /** Life `h` of burst bucket `i` begins at tick 2i + 3h of five seconds each. Number of lives, of
      `lives` in all, that begin before tick `u`. */
  function Begun(i: nat, u: nat, lives: nat): nat {
    if u <= 2 * i then 0 else if (u - 2 * i + 2) / 3 < lives then (u - 2 * i + 2) / 3 else lives
  }

  predicate BeginsAt(i: nat, u: nat, lives: nat) { Begun(i, u + 1, lives) == Begun(i, u, lives) + 1 }

  lemma BegunStep(i: nat, u: nat, lives: nat)
    ensures BeginsAt(i, u, lives) <==> 2 * i <= u && u == 2 * i + 3 * Begun(i, u, lives) && Begun(i, u, lives) < lives
    ensures !BeginsAt(i, u, lives) ==> Begun(i, u + 1, lives) == Begun(i, u, lives)
  {
  }

  /** The last tick at which a life begins, of bucket 5. */
  function LastTick(lives: nat): nat
    requires lives >= 1
  {
    10 + 3 * (lives - 1)
  }

  lemma AllBegun(i: nat, lives: nat)
    requires i <= 5 && lives >= 1
    ensures Begun(i, LastTick(lives) + 1, lives) == lives
    ensures Begun(5, LastTick(lives), lives) == lives - 1
    ensures i < 5 ==> Begun(i, LastTick(lives), lives) == lives
  {
  }

  /** How far the filling has come: to bucket `j` of tick `u`. */
  datatype Level = Level(u: nat, j: nat)

  function BegunAt(i: nat, l: Level, lives: nat): nat { Begun(i, if i < l.j then l.u + 1 else l.u, lives) }

  function Sum(f: nat -> nat): nat { f(0) + f(1) + f(2) + f(3) + f(4) + f(5) }

  function Total(l: Level, lives: nat): nat { Sum((i: nat) => BegunAt(i, l, lives)) }

  /** Checks 0 to n - 1 exist, and all passed within the first minute. */
  ghost predicate AllPassed(s: State, t: Target, n: nat) {
    && (forall id :: id in s.checks <==> 0 <= id < n)
    && (forall id :: 0 <= id < n ==> id in s.checks && Passed(s.checks[id], t) && s.checks[id].clock < 60_000)
  }

  /** The minute's counter lives its time, and only its first life may have counted all `n`. */
  predicate MinuteFits(cfg: Rules, s: State, t: Target, n: nat) {
    var key := cfg.key(Sustained, t, 0);
    if n == 0 then key !in s.store
    else
      && key in s.store && 0 <= s.store[key].born <= s.now
      && s.store[key].expires == Some(s.store[key].born + 70_000)
      && 1 <= s.store[key].count <= n && (s.store[key].born > 0 ==> s.store[key].count < n)
  }

  /** The counter of burst bucket `i` is gone when its life `g` begins. */
  predicate FreeAt(cfg: Rules, s: State, t: Target, i: nat, g: nat) {
    var key := cfg.key(Burst, t, i);
    key in s.store ==> s.store[key].expires.Some? && s.store[key].expires.value <= 5_000 * (2 * i + 3 * g)
  }

  /** Between two lives: every burst counter waits for its next one. */
  ghost predicate Filled(cfg: Rules, s: State, t: Target, n: nat, l: Level, lives: nat) {
    && s.now == 5_000 * l.u && AllPassed(s, t, n) && MinuteFits(cfg, s, t, n)
    && forall i :: 0 <= i < 6 ==> FreeAt(cfg, s, t, i, BegunAt(i, l, lives))
  }

  // ---------------------------------------------------------------------------------------
  // One life

  /** In life `h` of bucket `j`, `m` checks so far. */
  ghost predicate InLifeOf(cfg: Rules, s: State, t: Target, n: nat, l: Level, lives: nat, m: nat) {
    && s.now == 5_000 * l.u && AllPassed(s, t, n) && MinuteFits(cfg, s, t, n)
    && (forall i :: 0 <= i < 6 && i != l.j ==> FreeAt(cfg, s, t, i, BegunAt(i, l, lives)))
    && if m == 0 then FreeAt(cfg, s, t, l.j, BegunAt(l.j, l, lives))
       else
         var key := cfg.key(Burst, t, l.j);
         key in s.store && s.store[key] == Entry(m, Some(s.now + 15_000), s.now)
  }

  predicate Setting(cfg: Rules, t: Target, k: Slack) {
    && Open(cfg, t) && cfg.limit(t, Burst) >= 1 && cfg.limit(t, Sustained) >= 1
  }

  function LivesOf(k: Slack): nat { Lives(Burst, Lateness(k, Burst)) }

  /** The clock reading of a check in life `h` of bucket `j`: as late as the bucket allows. */
  function ClockFor(j: nat, u: nat): nat { if u == 2 * j then 10_000 * j else 10_000 * j + 9_999 }

  lemma ClockFits(j: nat, u: nat, k: Slack)
    requires j < 6 && BeginsAt(j, u, LivesOf(k))
    ensures ClockFor(j, u) / 10_000 == j && ClockFor(j, u) < 60_000
    ensures 0 <= 5_000 * u - ClockFor(j, u) <= Lateness(k, Burst)
  {
    BegunStep(j, u, LivesOf(k));
  }

  lemma OneInLife(cfg: Rules, s: State, t: Target, n: nat, l: Level, m: nat, k: Slack) returns (r: State)
    requires Setting(cfg, t, k) && Separating(cfg) && Reached(cfg, s, 0, k)
    requires InLifeOf(cfg, s, t, n, l, LivesOf(k), m) && l.j < 6 && BeginsAt(l.j, l.u, LivesOf(k))
    requires m < cfg.limit(t, Burst) && n < cfg.limit(t, Sustained) && (n == 0 ==> l.u == 0)
    ensures Reached(cfg, r, 0, k) && InLifeOf(cfg, r, t, n + 1, l, LivesOf(k), m + 1)
  {
    var clock := ClockFor(l.j, l.u);
    ClockFits(l.j, l.u, k);
    BegunStep(l.j, l.u, LivesOf(k));
    var burst, sustained := cfg.key(Burst, t, l.j), cfg.key(Sustained, t, 0);
    assert clock / 60_000 == 0;
    assert Counted(s.store, burst, s.now, Burst) == Entry(m + 1, Some(s.now + 15_000), s.now);
    MinuteCount(cfg, s, t, n);
    r := WholeCheck(cfg, s, n, t, clock, k);
    AfterCheck(cfg, s, r, t, n, l, m, k);
  }

  /** The minute's counter after one more check. */
  lemma MinuteCount(cfg: Rules, s: State, t: Target, n: nat)
    requires MinuteFits(cfg, s, t, n) && s.now >= 0 && (n == 0 ==> s.now == 0)
    ensures var e := Counted(s.store, cfg.key(Sustained, t, 0), s.now, Sustained);
            && 0 <= e.born <= s.now && e.expires == Some(e.born + 70_000)
            && 1 <= e.count <= n + 1 && (e.born > 0 ==> e.count <= n)
            && (s.now >= 70_000 && n >= 1 ==> e.count <= n)
  {
  }

  lemma AfterCheck(cfg: Rules, s: State, r: State, t: Target, n: nat, l: Level, m: nat, k: Slack)
    requires Separating(cfg) && cfg.limited(t) && InLifeOf(cfg, s, t, n, l, LivesOf(k), m) && l.j < 6
    requires r.now == s.now && n in r.checks && r.checks == s.checks[n := r.checks[n]]
    requires Passed(r.checks[n], t) && r.checks[n].clock < 60_000
    requires var e := Entry(m + 1, Some(s.now + 15_000), s.now);
             r.store == s.store[cfg.key(Burst, t, l.j) := e]
                        [cfg.key(Sustained, t, 0) := Counted(s.store, cfg.key(Sustained, t, 0), s.now, Sustained)]
    requires n == 0 ==> s.now == 0
    ensures InLifeOf(cfg, r, t, n + 1, l, LivesOf(k), m + 1)
  {
    MinuteCount(cfg, s, t, n);
    forall i | 0 <= i < 6 && i != l.j ensures FreeAt(cfg, r, t, i, BegunAt(i, l, LivesOf(k))) {
      assert FreeAt(cfg, s, t, i, BegunAt(i, l, LivesOf(k)));
      assert cfg.key(Burst, t, i) != cfg.key(Burst, t, l.j) && cfg.key(Burst, t, i) != cfg.key(Sustained, t, 0);
    }
    assert cfg.key(Burst, t, l.j) != cfg.key(Sustained, t, 0);
  }

  /** More checks in this life. */
  lemma {:induction false} FillLife(cfg: Rules, s: State, t: Target, n: nat, l: Level, m: nat, goal: nat, k: Slack) returns (r: State)
    requires Setting(cfg, t, k) && Separating(cfg) && Reached(cfg, s, 0, k)
    requires InLifeOf(cfg, s, t, n, l, LivesOf(k), m) && l.j < 6 && BeginsAt(l.j, l.u, LivesOf(k))
    requires m <= goal <= cfg.limit(t, Burst) && n + (goal - m) <= cfg.limit(t, Sustained) && (n == 0 ==> l.u == 0)
    ensures Reached(cfg, r, 0, k) && InLifeOf(cfg, r, t, n + (goal - m), l, LivesOf(k), goal)
    decreases goal - m
  {
    r := s;
    if m < goal {
      r := OneInLife(cfg, s, t, n, l, m, k);
      r := FillLife(cfg, r, t, n + 1, l, m + 1, goal, k);
    }
  }

  // ---------------------------------------------------------------------------------------
  // All lives

  /** As many checks as the lives so far have room for, or as many as the minute has. */
  predicate Full(cfg: Rules, t: Target, n: nat, l: Level, lives: nat) {
    && n <= cfg.limit(t, Sustained) && (n == 0 ==> l == Level(0, 0))
    && (n == cfg.limit(t, Sustained) || n == cfg.limit(t, Burst) * Total(l, lives))
  }

  lemma SumStep(f: nat -> nat, g: nat -> nat, j: nat, d: nat)
    requires j < 6 && g(j) == f(j) + d && forall i: nat :: i < 6 && i != j ==> g(i) == f(i)
    ensures Sum(g) == Sum(f) + d
  {
  }

  lemma TotalStep(l: Level, lives: nat)
    requires l.j < 6
    ensures Total(Level(l.u, l.j + 1), lives) == Total(l, lives) + if BeginsAt(l.j, l.u, lives) then 1 else 0
  {
    var l' := Level(l.u, l.j + 1);
    BegunStep(l.j, l.u, lives);
    SumStep((i: nat) => BegunAt(i, l, lives), (i: nat) => BegunAt(i, l', lives), l.j, if BeginsAt(l.j, l.u, lives) then 1 else 0);
  }

  /** How many checks a bucket adds at one tick. */
  function Room(cfg: Rules, t: Target, n: nat, l: Level, lives: nat): nat
    requires n <= cfg.limit(t, Sustained)
  {
    if !BeginsAt(l.j, l.u, lives) then 0
    else if n + cfg.limit(t, Burst) <= cfg.limit(t, Sustained) then cfg.limit(t, Burst)
    else cfg.limit(t, Sustained) - n
  }

  lemma FullStep(cfg: Rules, t: Target, n: nat, l: Level, lives: nat)
    requires Full(cfg, t, n, l, lives) && l.j < 6 && lives >= 1 && cfg.limit(t, Burst) >= 1 && cfg.limit(t, Sustained) >= 1
    ensures var room := Room(cfg, t, n, l, lives);
            && Full(cfg, t, n + room, Level(l.u, l.j + 1), lives)
            && room <= cfg.limit(t, Burst) && (room > 0 ==> BeginsAt(l.j, l.u, lives))
  {
    TotalStep(l, lives);
    RoomFills(cfg.limit(t, Burst), Total(l, lives), BeginsAt(l.j, l.u, lives), n, cfg.limit(t, Sustained));
    if l == Level(0, 0) {
      BegunStep(0, 0, lives);
    }
  }

  lemma RoomFills(b: nat, total: nat, begins: bool, n: nat, limit: nat)
    requires n <= limit && (n == limit || n == b * total)
    ensures var room := if !begins then 0 else if n + b <= limit then b else limit - n;
            n + room == limit || n + room == b * (total + if begins then 1 else 0)
  {
    OneMoreTime(b, total + 1);
  }

  /** The counters once a life is over, or did not begin. */
  lemma LifeIsOver(cfg: Rules, s: State, t: Target, n: nat, l: Level, lives: nat, m: nat)
    requires InLifeOf(cfg, s, t, n, l, lives, m) && l.j < 6 && (m > 0 ==> BeginsAt(l.j, l.u, lives))
    ensures Filled(cfg, s, t, n, Level(l.u, l.j + 1), lives)
  {
    BegunStep(l.j, l.u, lives);
    var l' := Level(l.u, l.j + 1);
    forall i | 0 <= i < 6 ensures FreeAt(cfg, s, t, i, BegunAt(i, l', lives)) {
      if i != l.j {
        assert FreeAt(cfg, s, t, i, BegunAt(i, l, lives));
        assert BegunAt(i, l', lives) == BegunAt(i, l, lives);
      }
    }
  }

  /** One bucket at one tick. */
  lemma FillSlot(cfg: Rules, s: State, t: Target, n: nat, l: Level, k: Slack) returns (r: State, n': nat)
    requires Setting(cfg, t, k) && Separating(cfg) && Reached(cfg, s, 0, k) && l.j < 6
    requires Filled(cfg, s, t, n, l, LivesOf(k)) && Full(cfg, t, n, l, LivesOf(k))
    ensures var l' := Level(l.u, l.j + 1);
            Reached(cfg, r, 0, k) && Filled(cfg, r, t, n', l', LivesOf(k)) && Full(cfg, t, n', l', LivesOf(k))
  {
    var lives := LivesOf(k);
    var room := Room(cfg, t, n, l, lives);
    FullStep(cfg, t, n, l, lives);
    NotYet(cfg, s, t, n, l, lives);
    r, n' := s, n + room;
    if room > 0 {
      r := FillLife(cfg, s, t, n, l, 0, room, k);
    }
    LifeIsOver(cfg, r, t, n', l, lives, room);
  }

  lemma NotYet(cfg: Rules, s: State, t: Target, n: nat, l: Level, lives: nat)
    requires Filled(cfg, s, t, n, l, lives) && l.j < 6
    ensures InLifeOf(cfg, s, t, n, l, lives, 0)
  {
  }

  /** Five seconds later. */
  lemma NextTick(cfg: Rules, s: State, t: Target, n: nat, u: nat, k: Slack) returns (r: State)
    requires Reached(cfg, s, 0, k) && Filled(cfg, s, t, n, Level(u, 6), LivesOf(k)) && Full(cfg, t, n, Level(u, 6), LivesOf(k))
    ensures Reached(cfg, r, 0, k) && Filled(cfg, r, t, n, Level(u + 1, 0), LivesOf(k)) && Full(cfg, t, n, Level(u + 1, 0), LivesOf(k))
  {
    var l, l', lives := Level(u, 6), Level(u + 1, 0), LivesOf(k);
    r := Wait(cfg, s, 5_000 * (u + 1), k);
    TurnOfTick(u, lives);
    forall i | 0 <= i < 6 ensures FreeAt(cfg, r, t, i, BegunAt(i, l', lives)) {
      assert FreeAt(cfg, s, t, i, BegunAt(i, l, lives));
    }
  }

  lemma TurnOfTick(u: nat, lives: nat)
    ensures var l, l' := Level(u, 6), Level(u + 1, 0);
            (forall i: nat :: i < 6 ==> BegunAt(i, l', lives) == BegunAt(i, l, lives)) && Total(l', lives) == Total(l, lives)
  {
    var l, l' := Level(u, 6), Level(u + 1, 0);
    SumStep((i: nat) => BegunAt(i, l, lives), (i: nat) => BegunAt(i, l', lives), 0, 0);
  }

  /** Every life but the last one. */
  lemma {:induction false} FillFrom(cfg: Rules, s: State, t: Target, n: nat, l: Level, k: Slack) returns (r: State, n': nat)
    requires Setting(cfg, t, k) && Separating(cfg) && Reached(cfg, s, 0, k)
    requires Filled(cfg, s, t, n, l, LivesOf(k)) && Full(cfg, t, n, l, LivesOf(k))
    requires l.j <= 6 && (l.u < LastTick(LivesOf(k)) || (l.u == LastTick(LivesOf(k)) && l.j <= 5))
    ensures var last := Level(LastTick(LivesOf(k)), 5);
            Reached(cfg, r, 0, k) && Filled(cfg, r, t, n', last, LivesOf(k)) && Full(cfg, t, n', last, LivesOf(k))
    decreases LastTick(LivesOf(k)) - l.u, 6 - l.j
  {
    r, n' := s, n;
    if l.j == 6 {
      r := NextTick(cfg, s, t, n, l.u, k);
      r, n' := FillFrom(cfg, r, t, n, Level(l.u + 1, 0), k);
    } else if l != Level(LastTick(LivesOf(k)), 5) {
      r, n' := FillSlot(cfg, s, t, n, l, k);
      r, n' := FillFrom(cfg, r, t, n', Level(l.u, l.j + 1), k);
    }
  }

  /** The minute's limit is reached, and the last life has room for one more. */
  lemma FullMinute(cfg: Rules, t: Target, k: Slack) returns (r: State, m: nat)
    requires Setting(cfg, t, k) && Separating(cfg) && cfg.limit(t, Sustained) < cfg.limit(t, Burst) * (6 * LivesOf(k))
    ensures Reached(cfg, r, 0, k) && m < cfg.limit(t, Burst)
    ensures InLifeOf(cfg, r, t, cfg.limit(t, Sustained), Level(LastTick(LivesOf(k)), 5), LivesOf(k), m)
  {
    var lives, limit := LivesOf(k), cfg.limit(t, Sustained);
    var last := Level(LastTick(lives), 5);
    ReachStart(cfg, 0, k);
    StartIsFilled(cfg, t, lives);
    var s, n := FillFrom(cfg, EMPTY, t, 0, Level(0, 0), k);
    LastTotal(lives);
    RoomLeft(cfg, t, n, lives);
    NotYet(cfg, s, t, n, last, lives);
    m := limit - n;
    r := FillLife(cfg, s, t, n, last, 0, m, k);
  }

  lemma RoomLeft(cfg: Rules, t: Target, n: nat, lives: nat)
    requires lives >= 1 && Full(cfg, t, n, Level(LastTick(lives), 5), lives)
    requires cfg.limit(t, Burst) >= 1 && cfg.limit(t, Sustained) < cfg.limit(t, Burst) * (6 * lives)
    ensures n > 0 && 0 <= cfg.limit(t, Sustained) - n < cfg.limit(t, Burst)
  {
    LastTotal(lives);
    AllButOne(cfg.limit(t, Burst), 6 * lives, Total(Level(LastTick(lives), 5), lives), n, cfg.limit(t, Sustained));
  }

  lemma AllButOne(b: nat, lives: nat, total: nat, n: nat, limit: nat)
    requires total == lives - 1 && n <= limit < b * lives && (n == limit || n == b * total)
    ensures limit - n < b || n == limit
  {
    OneMoreTime(b, lives);
  }

  lemma StartIsFilled(cfg: Rules, t: Target, lives: nat)
    ensures Filled(cfg, EMPTY, t, 0, Level(0, 0), lives) && Full(cfg, t, 0, Level(0, 0), lives)
  {
    assert Total(Level(0, 0), lives) == 0;
  }

  lemma LastTotal(lives: nat)
    requires lives >= 1
    ensures Total(Level(LastTick(lives), 5), lives) == 6 * lives - 1
    ensures BeginsAt(5, LastTick(lives), lives)
  {
    var last := Level(LastTick(lives), 5);
    forall i: nat | i < 6 ensures BegunAt(i, last, lives) == if i == 5 then lives - 1 else lives {
      AllBegun(i, lives);
    }
    AllBegun(5, lives);
  }

  // ---------------------------------------------------------------------------------------
  // The last check

  function Max(a: nat, b: nat): nat { if a < b then b else a }

  /** It reads its clock as the minute closes, makes its first INCR in the last life of bucket 5,
      and its second when the minute's counter is gone. */
  lemma LastCheck(cfg: Rules, s: State, t: Target, n: nat, m: nat, k: Slack) returns (r: State)
    requires Setting(cfg, t, k) && Separating(cfg) && Reached(cfg, s, 0, k) && k.sustained > 10_000
    requires n == cfg.limit(t, Sustained) && m < cfg.limit(t, Burst)
    requires InLifeOf(cfg, s, t, n, Level(LastTick(LivesOf(k)), 5), LivesOf(k), m)
    ensures Reached(cfg, r, 0, k) && AllPassed(r, t, n + 1)
  {
    var first := Max(59_999, 5_000 * LastTick(LivesOf(k)));
    var e := Counted(s.store, cfg.key(Burst, t, 5), first, Burst);
    LastLifeHasRoom(cfg, s, t, n, m, k);
    assert cfg.key(Burst, t, 5) != cfg.key(Sustained, t, 0);
    var s1 := Wait(cfg, s, first, k);
    var s2 := FirstCall(cfg, s1, n, t, 59_999, k);
    assert MinuteFits(cfg, s2, t, n);
    r := SecondOfLast(cfg, s2, t, n, Tally(e.count, e.born, first), k);
    forall id | 0 <= id < n ensures Passed(r.checks[id], t) && r.checks[id].clock < 60_000 {
      assert r.checks[id] == s.checks[id];
    }
  }

  lemma SecondOfLast(cfg: Rules, s: State, t: Target, n: nat, x: Tally, k: Slack) returns (r: State)
    requires Setting(cfg, t, k) && Reached(cfg, s, 0, k) && n == cfg.limit(t, Sustained) && x.value <= cfg.limit(t, Burst)
    requires 0 <= s.now - 59_999 <= k.sustained && k.sustained > 10_000
    requires n in s.checks && s.checks[n] == Halfway(t, 59_999, x) && MinuteFits(cfg, s, t, n)
    ensures Reached(cfg, r, 0, k) && n in r.checks && r.checks == s.checks[n := r.checks[n]]
    ensures Passed(r.checks[n], t) && r.checks[n].clock == 59_999
  {
    var s1 := Wait(cfg, s, Max(70_000, s.now), k);
    MinuteCount(cfg, s1, t, n);
    r := SecondCall(cfg, s1, n, t, 59_999, x, k);
  }

  lemma LastLifeHasRoom(cfg: Rules, s: State, t: Target, n: nat, m: nat, k: Slack)
    requires InLifeOf(cfg, s, t, n, Level(LastTick(LivesOf(k)), 5), LivesOf(k), m) && m < cfg.limit(t, Burst)
    ensures var first := Max(59_999, 5_000 * LastTick(LivesOf(k)));
            && s.now <= first && first - 59_999 <= Lateness(k, Burst)
            && Counted(s.store, cfg.key(Burst, t, 5), first, Burst).count <= cfg.limit(t, Burst)
  {
    AllBegun(5, LivesOf(k));
  }

  lemma {:induction false} PrefixSize(ids: set<nat>, n: nat)
    requires forall i :: 0 <= i < n ==> i in ids
    ensures |ids| >= n
    decreases n
  {
    if n > 0 {
      PrefixSize(ids - {n - 1}, n - 1);
    }
  }

  /** So the minute admits one check more than its limit. */
  lemma Overflow(cfg: Rules, t: Target, k: Slack) returns (r: State)
    requires Setting(cfg, t, k) && Separating(cfg) && k.sustained > 10_000
    requires cfg.limit(t, Sustained) < cfg.limit(t, Burst) * (6 * LivesOf(k))
    ensures Reached(cfg, r, 0, k) && |Admitted(r, t, Sustained, 0)| > cfg.limit(t, Sustained)
  {
    var s, m := FullMinute(cfg, t, k);
    var n := cfg.limit(t, Sustained);
    r := LastCheck(cfg, s, t, n, m, k);
    forall id | 0 <= id < n + 1 ensures id in Admitted(r, t, Sustained, 0) {
      assert Passed(r.checks[id], t) && r.checks[id].clock < 60_000;
    }
    PrefixSize(Admitted(r, t, Sustained, 0), n + 1);
  }
}
