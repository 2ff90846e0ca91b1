/** The Redis fixed-window limiter as a state machine. Every Redis call is one atomic step;
    checks of different requests interleave between calls, time passes at any point, and any
    call may fail before or after it took effect. Times are in milliseconds. */
module RateLimiter {
  import opened Arith
  import opened Text
  import opened RateLimitKeys

  /** What the configuration decides: whether limiting is on, which targets are ever checked,
      the Redis key of a bucket, the limit of a window, and the fault mode. */
  datatype Rules = Rules(
    enabled: bool,
    limited: Target -> bool,
    key: (Window, Target, nat) -> string,
    limit: (Target, Window) -> nat,
    failsClosed: Target -> bool)

  /** Distinct buckets of checked targets have distinct keys. */
  ghost predicate Separating(cfg: Rules) {
    forall w, t, n, v, u, m ::
      cfg.limited(t) && cfg.limited(u) && cfg.key(w, t, n) == cfg.key(v, u, m) ==> w == v && t == u && n == m
  }

  /** A counter; `expires` is the instant at which Redis forgets it. `born` is when its first INCR
      created it: Redis does not show it, but the theorems speak of it. */
  datatype Entry = Entry(count: nat, expires: Option<int>, born: int)

  /** What an INCR returned, the birth of the counter that it went up, and when it reached Redis. */
  datatype Tally = Tally(value: nat, born: int, at: int)

  datatype Phase = Clock | Incr(window: Window) | Expire(window: Window) | Done

  datatype Result = Result(allowed: bool, blocked: bool, redisError: bool)

  datatype Check = Check(
    target: Target,
    phase: Phase,
    clock: nat,                  // the server's own clock, read once per check
    counts: map<Window, Tally>,  // what the INCR calls returned
    result: Result)

  datatype State = State(now: int, store: map<string, Entry>, checks: map<nat, Check>)

  /** How a Redis call ends: normally, lost before it took effect, or lost after. */
  datatype Reply = Normal | LostBefore | LostAfter

  datatype Step =
    | Tick(elapsed: nat)
    | Begin(id: nat, target: Target)
    | ReadClock(id: nat, clock: nat)
    | Redis(id: nat, reply: Reply)

  function Length(w: Window): nat { match w case Burst => 10_000 case Sustained => 60_000 }

  function Ttl(w: Window): nat { match w case Burst => 15_000 case Sustained => 70_000 }

  function BucketOf(c: Check, w: Window): nat { c.clock / Length(w) }

  function KeyOf(cfg: Rules, c: Check, w: Window): string { cfg.key(w, c.target, BucketOf(c, w)) }

  predicate Live(e: Entry, now: int) { e.expires.None? || now < e.expires.value }

  /** INCR: a missing or expired key restarts at one, with no expiry. */
  function Increment(store: map<string, Entry>, key: string, now: int): Entry {
    if key in store && Live(store[key], now) then store[key].(count := store[key].count + 1)
    else Entry(1, None, now)
  }

  /** EXPIRE: only a live key gets the new deadline. */
  function SetExpiry(store: map<string, Entry>, key: string, now: int, ttl: nat): (r: map<string, Entry>)
    ensures r.Keys == store.Keys && forall k :: k in store && k != key ==> r[k] == store[k]
    ensures key in store && store[key].expires.Some? && store[key].expires.value <= now ==> r[key] == store[key]
  {
    if key in store && Live(store[key], now)
    then store[key := store[key].(expires := Some(now + ttl))]
    else store
  }

  function Verdict(cfg: Rules, c: Check): Result
    requires Burst in c.counts && Sustained in c.counts
  {
    if c.counts[Burst].value > cfg.limit(c.target, Burst) || c.counts[Sustained].value > cfg.limit(c.target, Sustained)
    then Result(false, true, false)
    else Result(true, false, false)
  }

  /** Where the check goes once the call of phase `p` returned. */
  function NextPhase(p: Phase, first: bool): Phase {
    match p
    case Incr(w) => if first then Expire(w) else if w.Burst? then Incr(Sustained) else Done
    case Expire(w) => if w.Burst? then Incr(Sustained) else Done
    case _ => Done
  }

  function Failed(cfg: Rules, c: Check): Check
  {
    c.(phase := Done, result := Result(!cfg.failsClosed(c.target), false, true))
  }

  function StoreAfter(cfg: Rules, s: State, c: Check): map<string, Entry> {
    match c.phase
    case Incr(w) => s.store[KeyOf(cfg, c, w) := Increment(s.store, KeyOf(cfg, c, w), s.now)]
    case Expire(w) => SetExpiry(s.store, KeyOf(cfg, c, w), s.now, Ttl(w))
    case _ => s.store
  }

  function Returned(cfg: Rules, s: State, c: Check): Check
  {
    var d :=
      match c.phase
      case Incr(w) =>
        var e := Increment(s.store, KeyOf(cfg, c, w), s.now);
        c.(counts := c.counts[w := Tally(e.count, e.born, s.now)], phase := NextPhase(c.phase, e.count == 1))
      case _ => c.(phase := NextPhase(c.phase, false));
    if d.phase.Done? && Burst in d.counts && Sustained in d.counts then d.(result := Verdict(cfg, d)) else d
  }

  predicate Enabled(cfg: Rules, s: State, step: Step) {
    match step
    case Tick(_) => true
    case Begin(id, t) => id !in s.checks && cfg.limited(t)
    case ReadClock(id, _) => id in s.checks && s.checks[id].phase.Clock? && cfg.limited(s.checks[id].target)
    case Redis(id, reply) =>
      && id in s.checks && !s.checks[id].phase.Done? && cfg.limited(s.checks[id].target)
      && (s.checks[id].phase.Clock? ==> reply.LostBefore?)   // no connection could be had at all
  }

  function Apply(cfg: Rules, s: State, step: Step): State
    requires Enabled(cfg, s, step)
  {
    match step
    case Tick(d) => s.(now := s.now + d)
    case Begin(id, t) =>
      var c := Check(t, if cfg.enabled then Clock else Done, 0, map[], Result(true, false, false));
      s.(checks := s.checks[id := c])
    case ReadClock(id, clock) => s.(checks := s.checks[id := s.checks[id].(clock := clock, phase := Incr(Burst))])
    case Redis(id, reply) =>
      var c := s.checks[id];
      if reply.Normal? then s.(store := StoreAfter(cfg, s, c), checks := s.checks[id := Returned(cfg, s, c)])
      else
        s.(store := if reply.LostAfter? then StoreAfter(cfg, s, c) else s.store, checks := s.checks[id := Failed(cfg, c)])
  }

  /** `_raise_or_response` and the middleware: a request passes only without a block and
      without a Redis error, whatever `allowed` says. */
  predicate HttpAdmits(r: Result) { !r.blocked && !r.redisError }

  /** The status that HTTP answers with, when the request itself would succeed. */
  function HttpAnswer(r: Result): nat { if r.blocked then 429 else if r.redisError then 503 else 200 }

  /** The WebSocket handshake looks at `allowed` only. */
  predicate WebSocketAdmits(r: Result) { r.allowed }

  // ---------------------------------------------------------------------------------------
  // Runs

  /** How much later than the clock reading an INCR may reach Redis, beyond a common offset. */
  datatype Slack = Slack(burst: nat, sustained: nat)

  function SlackOf(k: Slack, w: Window): nat { match w case Burst => k.burst case Sustained => k.sustained }

  /** Clock skew plus delay of every INCR that takes effect lies in `[offset, offset + slack]`. */
  predicate Timely(cfg: Rules, s: State, step: Step, offset: int, k: Slack)
    requires Enabled(cfg, s, step)
  {
    step.Redis? && !step.reply.LostBefore? && s.checks[step.id].phase.Incr? ==>
      OnTime(s, s.checks[step.id], s.checks[step.id].phase.window, offset, k)
  }

  const EMPTY := State(0, map[], map[])

  /** Any interleaving of checks, with any faults and any delays. */
  ghost predicate IsTrace(cfg: Rules, trace: seq<State>, steps: seq<Step>) {
    && |trace| == |steps| + 1
    && trace[0] == EMPTY
    && forall i :: 0 <= i < |steps| ==> Enabled(cfg, trace[i], steps[i]) && trace[i + 1] == Apply(cfg, trace[i], steps[i])
  }

  /** One in which the lag of the INCR calls varies by no more than the slack. */
  ghost predicate IsRun(cfg: Rules, trace: seq<State>, steps: seq<Step>, offset: int, k: Slack) {
    IsTrace(cfg, trace, steps) && forall i :: 0 <= i < |steps| ==> Timely(cfg, trace[i], steps[i], offset, k)
  }

  /** Checks that HTTP lets through, for one target and one bucket. */
  ghost function Admitted(s: State, t: Target, w: Window, bucket: nat): set<nat> {
    set id | id in s.checks && s.checks[id].target == t && BucketOf(s.checks[id], w) == bucket
             && s.checks[id].phase.Done? && HttpAdmits(s.checks[id].result)
  }

  /** Checks that HTTP lets through, for one target, by clock readings in an interval. */
  ghost function AdmittedBetween(s: State, t: Target, from: nat, to: nat): set<nat> {
    set id | id in s.checks && s.checks[id].target == t && from <= s.checks[id].clock < to
             && s.checks[id].phase.Done? && HttpAdmits(s.checks[id].result)
  }

  // ---------------------------------------------------------------------------------------
  // The invariant

  predicate WithinLimits(cfg: Rules, c: Check) {
    && Burst in c.counts && c.counts[Burst].value <= cfg.limit(c.target, Burst)
    && Sustained in c.counts && c.counts[Sustained].value <= cfg.limit(c.target, Sustained)
  }

  /** What one check has done so far, by phase. */
  predicate Progress(cfg: Rules, c: Check) {
    && cfg.limited(c.target)
    && (c.phase == Clock || c.phase == Incr(Burst) ==> c.counts == map[])
    && (c.phase == Expire(Burst) || c.phase == Incr(Sustained) ==> Burst in c.counts && Sustained !in c.counts)
    && (c.phase == Expire(Sustained) ==> Burst in c.counts && Sustained in c.counts)
    && (c.phase.Done? && HttpAdmits(c.result) && cfg.enabled ==> WithinLimits(cfg, c))
    && (c.phase.Done? && WebSocketAdmits(c.result) && cfg.failsClosed(c.target) ==> HttpAdmits(c.result))
  }

  function BucketStart(c: Check, w: Window): nat { BucketOf(c, w) * Length(w) }

  lemma ClockInBucket(c: Check, w: Window)
    ensures BucketStart(c, w) <= c.clock < BucketStart(c, w) + Length(w)
  {
    match w case Burst => case Sustained =>
  }

  /** The counter lives for its whole time. */
  predicate LateDeadline(e: Entry, w: Window) {
    e.expires.Some? ==> e.born + Ttl(w) <= e.expires.value
  }

  /** The counter that `c` was counted by is still there and has only gone up, or a later one is,
      born after the time of that one was over. */
  predicate Covered(cfg: Rules, s: State, c: Check, w: Window) {
    w in c.counts ==>
      && KeyOf(cfg, c, w) in s.store && c.counts[w].value >= 1 && c.counts[w].at <= s.now
      && var e := s.store[KeyOf(cfg, c, w)];
         && (if e.born == c.counts[w].born then c.counts[w].value <= e.count else c.counts[w].born + Ttl(w) <= e.born)
         && LateDeadline(e, w)
  }

  /** A recorded count reached Redis in time, and so was its counter born. */
  predicate InTime(c: Check, w: Window, offset: int, k: Slack) {
    w in c.counts ==>
      && BucketStart(c, w) + offset <= c.counts[w].born <= c.counts[w].at
      && c.clock + offset <= c.counts[w].at <= c.clock + offset + SlackOf(k, w)
      && (Sustained in c.counts ==> c.counts[w].at <= c.clock + offset + k.sustained)
      && (c.counts[w].value == 1 ==> c.counts[w].born == c.counts[w].at)
  }

  predicate SameBucket(c: Check, d: Check, w: Window) {
    c.target == d.target && BucketOf(c, w) == BucketOf(d, w)
  }

  /** Two counts of one bucket: different numbers of one counter, or counters a whole life apart. */
  predicate Apart(a: Tally, b: Tally, w: Window) {
    if a.born == b.born then a.value != b.value else a.born + Ttl(w) <= b.born || b.born + Ttl(w) <= a.born
  }

  predicate CountsDiffer(c: Check, d: Check, w: Window) {
    SameBucket(c, d, w) && w in c.counts && w in d.counts ==> Apart(c.counts[w], d.counts[w], w)
  }

  predicate Recorded(cfg: Rules, c: Check, w: Window, key: string) { w in c.counts && KeyOf(cfg, c, w) == key }

  /** Some check recorded a count under this key. */
  ghost predicate Witnessed(cfg: Rules, s: State, key: string) {
    exists id, w :: id in s.checks && Recorded(cfg, s.checks[id], w, key)
  }

  ghost predicate AllCovered(cfg: Rules, s: State, w: Window, offset: int, k: Slack) {
    forall id :: id in s.checks ==> Covered(cfg, s, s.checks[id], w) && InTime(s.checks[id], w, offset, k)
  }

  ghost predicate AllWitnessed(cfg: Rules, s: State) {
    forall key :: key in s.store && s.store[key].expires.Some? ==> Witnessed(cfg, s, key)
  }

  ghost predicate AllDiffer(s: State, w: Window) {
    forall i, j :: i in s.checks && j in s.checks && i != j ==> CountsDiffer(s.checks[i], s.checks[j], w)
  }

  /** Counters start at one. */
  predicate Counting(s: State) { forall key :: key in s.store ==> s.store[key].count >= 1 && s.store[key].born <= s.now }

  /** No counter was born in the future, nor before a call for its bucket could arrive. */
  ghost predicate AllBorn(cfg: Rules, s: State, w: Window, offset: int) {
    && Counting(s)
    && (forall t, n: nat :: cfg.limited(t) && cfg.key(w, t, n) in s.store ==> n * Length(w) + offset <= s.store[cfg.key(w, t, n)].born)
  }

  /** What holds in every reachable state as far as window `w` is concerned. */
  ghost predicate Inv(cfg: Rules, s: State, w: Window, offset: int, k: Slack) {
    && (forall id :: id in s.checks ==> Progress(cfg, s.checks[id]))
    && AllCovered(cfg, s, w, offset, k)
    && AllWitnessed(cfg, s)
    && AllDiffer(s, w)
    && AllBorn(cfg, s, w, offset)
  }

  /** The INCR of `c` reaches Redis within the allowed lag. */
  predicate OnTime(s: State, c: Check, w: Window, offset: int, k: Slack) {
    offset <= s.now - c.clock <= offset + SlackOf(k, w)
  }

  /** An INCR returns more than every count that its counter gave to the bucket, and a new counter
      is born only when the time of the old one is over. */
  lemma IncrementIsFresh(cfg: Rules, s: State, c: Check, d: Check, w: Window)
    requires SameBucket(c, d, w) && w in d.counts && Covered(cfg, s, d, w)
    ensures var e := Increment(s.store, KeyOf(cfg, c, w), s.now);
            if e.born == d.counts[w].born then d.counts[w].value < e.count
            else d.counts[w].born + Ttl(w) <= e.born
  {
  }

  /** As long as the lag varies by no more than the time by which a counter outlives its bucket, an
      INCR for a bucket that has been counted finds its counter alive. */
  lemma LiveWithinMargin(cfg: Rules, s: State, c: Check, d: Check, w: Window, offset: int, k: Slack)
    requires AllBorn(cfg, s, w, offset) && cfg.limited(c.target)
    requires SameBucket(c, d, w) && w in d.counts && Covered(cfg, s, d, w)
    requires OnTime(s, c, w, offset, k) && SlackOf(k, w) <= Ttl(w) - Length(w)
    ensures KeyOf(cfg, c, w) in s.store && Live(s.store[KeyOf(cfg, c, w)], s.now)
  {
    ClockInBucket(c, w);
    assert KeyOf(cfg, c, w) == cfg.key(w, c.target, BucketOf(c, w));
  }

  /** A call leaves every recorded count covered. */
  lemma CoverageKept(cfg: Rules, s: State, c: Check, d: Check, v: Window)
    requires Separating(cfg) && cfg.limited(c.target) && cfg.limited(d.target)
    requires Counting(s)
    requires Covered(cfg, s, d, v)
    ensures Covered(cfg, s.(store := StoreAfter(cfg, s, c)), d, v)
  {
    if v in d.counts && (c.phase.Incr? || c.phase.Expire?) && KeyOf(cfg, c, c.phase.window) == KeyOf(cfg, d, v) {
      assert c.phase.window == v && SameBucket(c, d, v);
    }
  }

  /** A counter that carries a deadline carries one late enough. */
  lemma DeadlineIsLate(cfg: Rules, s: State, c: Check, w: Window, offset: int, k: Slack)
    requires Separating(cfg) && Inv(cfg, s, w, offset, k) && cfg.limited(c.target)
    requires KeyOf(cfg, c, w) in s.store
    ensures LateDeadline(s.store[KeyOf(cfg, c, w)], w)
  {
    if s.store[KeyOf(cfg, c, w)].expires.Some? {
      assert Witnessed(cfg, s, KeyOf(cfg, c, w));
      var id, v :| id in s.checks && Recorded(cfg, s.checks[id], v, KeyOf(cfg, c, w));
      assert Progress(cfg, s.checks[id]) && Covered(cfg, s, s.checks[id], v);
      assert v == w && SameBucket(c, s.checks[id], w);
    }
  }

  /** The returning check is covered too, and its record matches its new phase. */
  lemma ReturnedIsCovered(cfg: Rules, s: State, c: Check, v: Window)
    requires Separating(cfg) && Progress(cfg, c) && !c.phase.Done? && !c.phase.Clock?
    requires c.phase == Incr(v) && KeyOf(cfg, c, v) in s.store ==> LateDeadline(s.store[KeyOf(cfg, c, v)], v)
    requires Counting(s)
    requires Covered(cfg, s, c, v)
    ensures Covered(cfg, s.(store := StoreAfter(cfg, s, c)), Returned(cfg, s, c), v)
  {
    if c.phase != Incr(v) {
      CoverageKept(cfg, s, c, c, v);
    }
  }

  lemma ReturnedProgresses(cfg: Rules, s: State, c: Check)
    requires Progress(cfg, c) && !c.phase.Done? && !c.phase.Clock?
    ensures Progress(cfg, Returned(cfg, s, c))
  {
  }

  /** What it recorded was born in time. */
  lemma ReturnedIsInTime(cfg: Rules, s: State, c: Check, w: Window, offset: int, k: Slack)
    requires Progress(cfg, c) && !c.phase.Done? && !c.phase.Clock?
    requires AllBorn(cfg, s, w, offset) && Covered(cfg, s, c, w) && InTime(c, w, offset, k)
    requires c.phase.Incr? ==> OnTime(s, c, c.phase.window, offset, k)
    ensures InTime(Returned(cfg, s, c), w, offset, k)
  {
    ClockInBucket(c, w);
    assert w in c.counts ==> c.counts[w].at <= s.now;
    if c.phase == Incr(w) {
      BirthOf(cfg, s, c, w, offset);
    }
  }

  /** When the counter was born that an INCR goes up. */
  lemma BirthOf(cfg: Rules, s: State, c: Check, w: Window, offset: int)
    requires cfg.limited(c.target) && AllBorn(cfg, s, w, offset) && offset <= s.now - c.clock
    ensures var e := Increment(s.store, KeyOf(cfg, c, w), s.now);
            && BucketStart(c, w) + offset <= e.born <= s.now && e.count >= 1
            && (e.count == 1 ==> e.born == s.now)
  {
    ClockInBucket(c, w);
  }

  // ---------------------------------------------------------------------------------------
  // Preservation, step by step

  /** One check moves from `c` to `d`, and the store becomes `store`. */
  function Moved(s: State, id: nat, d: Check, store: map<string, Entry>): State {
    s.(store := store, checks := s.checks[id := d])
  }

  lemma WitnessesKept(cfg: Rules, s: State, id: nat, d: Check, store: map<string, Entry>, key: string)
    requires id in s.checks && Witnessed(cfg, s, key)
    requires d.target == s.checks[id].target && s.checks[id].counts.Keys <= d.counts.Keys
    requires d.clock == s.checks[id].clock || s.checks[id].counts == map[]
    ensures Witnessed(cfg, Moved(s, id, d, store), key)
  {
    var i, w :| i in s.checks && Recorded(cfg, s.checks[i], w, key);
    var s' := Moved(s, id, d, store);
    assert i in s'.checks && Recorded(cfg, s'.checks[i], w, key);
  }

  /** The new count is apart from every other count of its bucket. */
  lemma ReturnedDiffers(cfg: Rules, s: State, id: nat, other: nat, w: Window, offset: int, k: Slack)
    requires Inv(cfg, s, w, offset, k)
    requires id in s.checks && other in s.checks && id != other
    ensures CountsDiffer(Returned(cfg, s, s.checks[id]), s.checks[other], w)
  {
    var c, d := s.checks[id], s.checks[other];
    assert CountsDiffer(c, d, w) && Covered(cfg, s, d, w);
    if c.phase == Incr(w) && SameBucket(c, d, w) && w in d.counts {
      IncrementIsFresh(cfg, s, c, d, w);
    }
  }

  ghost predicate TimelyCall(cfg: Rules, s: State, step: Step, w: Window, offset: int, k: Slack) {
    && Separating(cfg) && Inv(cfg, s, w, offset, k)
    && step.Redis? && Enabled(cfg, s, step) && Timely(cfg, s, step, offset, k)
  }

  /** The calling check itself, after a normal reply. */
  lemma CallerIsCovered(cfg: Rules, s: State, id: nat, w: Window, offset: int, k: Slack)
    requires TimelyCall(cfg, s, Redis(id, Normal), w, offset, k)
    ensures Covered(cfg, s.(store := StoreAfter(cfg, s, s.checks[id])), Returned(cfg, s, s.checks[id]), w)
    ensures Progress(cfg, Returned(cfg, s, s.checks[id])) && InTime(Returned(cfg, s, s.checks[id]), w, offset, k)
  {
    var c := s.checks[id];
    assert Progress(cfg, c) && Covered(cfg, s, c, w) && InTime(c, w, offset, k);
    if KeyOf(cfg, c, w) in s.store {
      DeadlineIsLate(cfg, s, c, w, offset, k);
    }
    ReturnedIsCovered(cfg, s, c, w);
    ReturnedProgresses(cfg, s, c);
    ReturnedIsInTime(cfg, s, c, w, offset, k);
  }

  /** Every other check, and the calling one when its reply was lost. */
  lemma OthersStayCovered(cfg: Rules, s: State, step: Step, w: Window, offset: int, k: Slack, i: nat)
    requires TimelyCall(cfg, s, step, w, offset, k) && i in s.checks
    ensures Covered(cfg, s.(store := StoreAfter(cfg, s, s.checks[step.id])), s.checks[i], w)
    ensures Covered(cfg, s, s.checks[i], w) && InTime(s.checks[i], w, offset, k)
  {
    assert Progress(cfg, s.checks[step.id]) && Progress(cfg, s.checks[i]) && Covered(cfg, s, s.checks[i], w);
    CoverageKept(cfg, s, s.checks[step.id], s.checks[i], w);
  }

  /** The calling check after any reply. */
  lemma CallerStaysCovered(cfg: Rules, s: State, step: Step, w: Window, offset: int, k: Slack)
    requires TimelyCall(cfg, s, step, w, offset, k)
    ensures var s', c := Apply(cfg, s, step), Apply(cfg, s, step).checks[step.id];
            Covered(cfg, s', c, w) && InTime(c, w, offset, k) && Progress(cfg, c)
  {
    assert Progress(cfg, s.checks[step.id]);
    if step.reply.Normal? {
      CallerIsCovered(cfg, s, step.id, w, offset, k);
    } else {
      OthersStayCovered(cfg, s, step, w, offset, k, step.id);
    }
  }

  /** Any other check. */
  lemma OtherStaysCovered(cfg: Rules, s: State, step: Step, w: Window, offset: int, k: Slack, i: nat)
    requires TimelyCall(cfg, s, step, w, offset, k) && i in Apply(cfg, s, step).checks && i != step.id
    ensures var s', c := Apply(cfg, s, step), Apply(cfg, s, step).checks[i]; Covered(cfg, s', c, w) && InTime(c, w, offset, k)
  {
    OthersUntouched(cfg, s, step, i);
    OthersStayCovered(cfg, s, step, w, offset, k, i);
  }

  lemma CallKeepsCoverage(cfg: Rules, s: State, step: Step, w: Window, offset: int, k: Slack)
    requires TimelyCall(cfg, s, step, w, offset, k)
    ensures AllCovered(cfg, Apply(cfg, s, step), w, offset, k)
    ensures Progress(cfg, Apply(cfg, s, step).checks[step.id])
  {
    var s' := Apply(cfg, s, step);
    CallerStaysCovered(cfg, s, step, w, offset, k);
    forall i | i in s'.checks ensures Covered(cfg, s', s'.checks[i], w) && InTime(s'.checks[i], w, offset, k) {
      if i != step.id {
        OtherStaysCovered(cfg, s, step, w, offset, k, i);
      }
    }
  }

  /** Only the window's own call sets a deadline that was not there. */
  lemma NewDeadline(cfg: Rules, s: State, step: Step, key: string)
    requires step.Redis? && Enabled(cfg, s, step) && Progress(cfg, s.checks[step.id])
    requires key in Apply(cfg, s, step).store && Apply(cfg, s, step).store[key].expires.Some?
    requires !(key in s.store && s.store[key].expires.Some?)
    ensures var c := s.checks[step.id];
            c.phase.Expire? && Recorded(cfg, Apply(cfg, s, step).checks[step.id], c.phase.window, key)
  {
  }

  /** What a call leaves of the calling check's records. */
  lemma CallerKeepsRecords(cfg: Rules, s: State, step: Step)
    requires step.Redis? && Enabled(cfg, s, step)
    ensures var c, d := s.checks[step.id], Apply(cfg, s, step).checks[step.id];
            d.target == c.target && d.clock == c.clock && c.counts.Keys <= d.counts.Keys
  {
  }

  lemma CallKeepsWitnesses(cfg: Rules, s: State, step: Step, w: Window, offset: int, k: Slack)
    requires TimelyCall(cfg, s, step, w, offset, k)
    ensures AllWitnessed(cfg, Apply(cfg, s, step))
  {
    var c, s' := s.checks[step.id], Apply(cfg, s, step);
    assert Progress(cfg, c);
    CallerKeepsRecords(cfg, s, step);
    forall key | key in s'.store && s'.store[key].expires.Some? ensures Witnessed(cfg, s', key) {
      if key in s.store && s.store[key].expires.Some? {
        WitnessesKept(cfg, s, step.id, s'.checks[step.id], s'.store, key);
      } else {
        NewDeadline(cfg, s, step, key);
      }
    }
  }

  /** The calling check against any other. */
  lemma CallerDiffers(cfg: Rules, s: State, step: Step, w: Window, offset: int, k: Slack, i: nat)
    requires TimelyCall(cfg, s, step, w, offset, k) && i in s.checks && i != step.id
    ensures CountsDiffer(Apply(cfg, s, step).checks[step.id], s.checks[i], w)
  {
    assert CountsDiffer(s.checks[step.id], s.checks[i], w);
    if step.reply.Normal? {
      ReturnedDiffers(cfg, s, step.id, i, w, offset, k);
    }
  }

  lemma OthersUntouched(cfg: Rules, s: State, step: Step, i: nat)
    requires step.Redis? && Enabled(cfg, s, step) && i in Apply(cfg, s, step).checks && i != step.id
    ensures i in s.checks && Apply(cfg, s, step).checks[i] == s.checks[i]
  {
  }

  lemma CallKeepsDifference(cfg: Rules, s: State, step: Step, w: Window, offset: int, k: Slack)
    requires TimelyCall(cfg, s, step, w, offset, k)
    ensures AllDiffer(Apply(cfg, s, step), w)
  {
    var id, s' := step.id, Apply(cfg, s, step);
    forall i, j | i in s'.checks && j in s'.checks && i != j ensures CountsDiffer(s'.checks[i], s'.checks[j], w) {
      if i == id {
        OthersUntouched(cfg, s, step, j);
        CallerDiffers(cfg, s, step, w, offset, k, j);
      } else if j == id {
        OthersUntouched(cfg, s, step, i);
        CallerDiffers(cfg, s, step, w, offset, k, i);
      } else {
        OthersUntouched(cfg, s, step, i);
        OthersUntouched(cfg, s, step, j);
        assert CountsDiffer(s.checks[i], s.checks[j], w);
      }
    }
  }

  lemma StoreKeepsCounting(cfg: Rules, s: State, c: Check)
    requires Counting(s)
    ensures Counting(s.(store := StoreAfter(cfg, s, c)))
  {
  }

  lemma StoreKeepsBirth(cfg: Rules, s: State, c: Check, w: Window, offset: int, t: Target, n: nat)
    requires Separating(cfg) && cfg.limited(c.target) && cfg.limited(t) && AllBorn(cfg, s, w, offset)
    requires c.phase == Incr(w) ==> offset <= s.now - c.clock
    requires cfg.key(w, t, n) in StoreAfter(cfg, s, c)
    ensures n * Length(w) + offset <= StoreAfter(cfg, s, c)[cfg.key(w, t, n)].born
  {
    if c.phase.Incr? && KeyOf(cfg, c, c.phase.window) == cfg.key(w, t, n) {
      assert c.phase.window == w && c.target == t && BucketOf(c, w) == n;
      BirthOf(cfg, s, c, w, offset);
    }
  }

  lemma CallKeepsBirths(cfg: Rules, s: State, step: Step, w: Window, offset: int, k: Slack)
    requires TimelyCall(cfg, s, step, w, offset, k)
    ensures AllBorn(cfg, Apply(cfg, s, step), w, offset)
  {
    if !step.reply.LostBefore? {
      var c := s.checks[step.id];
      StoreKeepsCounting(cfg, s, c);
      forall t, n: nat | cfg.limited(t) && cfg.key(w, t, n) in StoreAfter(cfg, s, c)
        ensures n * Length(w) + offset <= StoreAfter(cfg, s, c)[cfg.key(w, t, n)].born
      {
        StoreKeepsBirth(cfg, s, c, w, offset, t, n);
      }
    }
  }

  lemma RedisKeepsInv(cfg: Rules, s: State, step: Step, w: Window, offset: int, k: Slack)
    requires TimelyCall(cfg, s, step, w, offset, k)
    ensures Inv(cfg, Apply(cfg, s, step), w, offset, k)
  {
    CallKeepsCoverage(cfg, s, step, w, offset, k);
    CallKeepsWitnesses(cfg, s, step, w, offset, k);
    CallKeepsDifference(cfg, s, step, w, offset, k);
    CallKeepsBirths(cfg, s, step, w, offset, k);
  }

  /** A step of time, of a new check or of a clock reading changes no recorded count. */
  lemma OtherStepsKeepRecords(cfg: Rules, s: State, step: Step, i: nat)
    requires !step.Redis? && Enabled(cfg, s, step) && i in Apply(cfg, s, step).checks
    requires i in s.checks ==> Progress(cfg, s.checks[i])
    ensures var c := Apply(cfg, s, step).checks[i];
            && Progress(cfg, c)
            && (c.counts == map[] || (i in s.checks && c == s.checks[i]))
  {
  }

  lemma OtherStepsKeepCoverage(cfg: Rules, s: State, step: Step, w: Window, offset: int, k: Slack)
    requires Inv(cfg, s, w, offset, k) && !step.Redis? && Enabled(cfg, s, step)
    ensures AllCovered(cfg, Apply(cfg, s, step), w, offset, k)
  {
    var s' := Apply(cfg, s, step);
    forall i | i in s'.checks ensures Covered(cfg, s', s'.checks[i], w) && InTime(s'.checks[i], w, offset, k) {
      OtherStepsKeepRecords(cfg, s, step, i);
      assert i in s.checks ==> Covered(cfg, s, s.checks[i], w) && InTime(s.checks[i], w, offset, k);
    }
  }

  lemma OtherStepsKeepWitnesses(cfg: Rules, s: State, step: Step, w: Window, offset: int, k: Slack)
    requires Inv(cfg, s, w, offset, k) && !step.Redis? && Enabled(cfg, s, step)
    ensures AllWitnessed(cfg, Apply(cfg, s, step))
  {
    var s' := Apply(cfg, s, step);
    forall key | key in s'.store && s'.store[key].expires.Some? ensures Witnessed(cfg, s', key) {
      var i, v :| i in s.checks && Recorded(cfg, s.checks[i], v, key);
      assert Progress(cfg, s.checks[i]);
      assert Recorded(cfg, s'.checks[i], v, key);
    }
  }

  lemma OtherStepsKeepDifference(cfg: Rules, s: State, step: Step, w: Window, offset: int, k: Slack)
    requires Inv(cfg, s, w, offset, k) && !step.Redis? && Enabled(cfg, s, step)
    ensures AllDiffer(Apply(cfg, s, step), w)
  {
    var s' := Apply(cfg, s, step);
    forall i, j | i in s'.checks && j in s'.checks && i != j ensures CountsDiffer(s'.checks[i], s'.checks[j], w) {
      OtherStepsKeepRecords(cfg, s, step, i);
      OtherStepsKeepRecords(cfg, s, step, j);
      assert i in s.checks && j in s.checks ==> CountsDiffer(s.checks[i], s.checks[j], w);
    }
  }

  lemma OtherStepsKeepInv(cfg: Rules, s: State, step: Step, w: Window, offset: int, k: Slack)
    requires Inv(cfg, s, w, offset, k) && !step.Redis? && Enabled(cfg, s, step)
    ensures Inv(cfg, Apply(cfg, s, step), w, offset, k)
  {
    OtherStepsKeepCoverage(cfg, s, step, w, offset, k);
    OtherStepsKeepWitnesses(cfg, s, step, w, offset, k);
    OtherStepsKeepDifference(cfg, s, step, w, offset, k);
    forall i | i in Apply(cfg, s, step).checks ensures Progress(cfg, Apply(cfg, s, step).checks[i]) {
      OtherStepsKeepRecords(cfg, s, step, i);
    }
  }

  lemma {:induction false} RunsKeepInv(
    cfg: Rules, trace: seq<State>, steps: seq<Step>, w: Window, offset: int, k: Slack, i: nat)
    requires Separating(cfg) && IsRun(cfg, trace, steps, offset, k) && i < |trace|
    ensures Inv(cfg, trace[i], w, offset, k)
  {
    if i > 0 {
      RunsKeepInv(cfg, trace, steps, w, offset, k, i - 1);
      assert Enabled(cfg, trace[i - 1], steps[i - 1]) && Timely(cfg, trace[i - 1], steps[i - 1], offset, k);
      if steps[i - 1].Redis? {
        RedisKeepsInv(cfg, trace[i - 1], steps[i - 1], w, offset, k);
      } else {
        OtherStepsKeepInv(cfg, trace[i - 1], steps[i - 1], w, offset, k);
      }
    }
  }

  // ---------------------------------------------------------------------------------------
  // Faults

  predicate CallFails(step: Step, id: nat) { step.Redis? && step.id == id && !step.reply.Normal? }

  /** A Redis call of check `id` failed in one of the first `i` steps. */
  predicate HasFailed(steps: seq<Step>, i: nat, id: nat)
    requires i <= |steps|
  {
    exists j :: 0 <= j < i && CallFails(steps[j], id)
  }

  predicate ResultFits(cfg: Rules, c: Check, failed: bool) {
    if failed then c.phase.Done? && c.result == Result(!cfg.failsClosed(c.target), false, true)
    else !c.result.redisError && (c.result.allowed <==> !c.result.blocked)
  }

  lemma {:induction false} ResultsFit(cfg: Rules, trace: seq<State>, steps: seq<Step>, i: nat, id: nat)
    requires IsTrace(cfg, trace, steps) && i < |trace|
    ensures id in trace[i].checks ==> ResultFits(cfg, trace[i].checks[id], HasFailed(steps, i, id))
    ensures id !in trace[i].checks ==> !HasFailed(steps, i, id)
    decreases i
  {
    if i > 0 {
      var k := i - 1;
      ResultsFit(cfg, trace, steps, k, id);
      assert Enabled(cfg, trace[k], steps[k]) && trace[i] == Apply(cfg, trace[k], steps[k]);
      assert HasFailed(steps, i, id) <==> HasFailed(steps, k, id) || CallFails(steps[k], id);
    }
  }

  /** Over all interleavings, faults and delays: a finished check says `allowed` and is refused by
      HTTP exactly when one of its Redis calls failed and its category does not fail closed. */
  lemma RefusedThoughAllowedExactlyWhen(cfg: Rules, trace: seq<State>, steps: seq<Step>, i: nat, id: nat)
    requires IsTrace(cfg, trace, steps) && i < |trace|
    requires id in trace[i].checks && trace[i].checks[id].phase.Done?
    ensures var c := trace[i].checks[id];
            WebSocketAdmits(c.result) && !HttpAdmits(c.result) <==> HasFailed(steps, i, id) && !cfg.failsClosed(c.target)
  {
    ResultsFit(cfg, trace, steps, i, id);
  }

  /** A connection failure is enough, for every target that does not fail closed. */
  lemma FailOpenIsRefused(cfg: Rules, t: Target) returns (trace: seq<State>, steps: seq<Step>)
    requires cfg.enabled && cfg.limited(t) && !cfg.failsClosed(t)
    ensures IsTrace(cfg, trace, steps) && 0 in trace[|steps|].checks
    ensures var c := trace[|steps|].checks[0]; c.phase.Done? && WebSocketAdmits(c.result) && !HttpAdmits(c.result)
  {
    steps := [Begin(0, t), Redis(0, LostBefore)];
    var s := Apply(cfg, EMPTY, steps[0]);
    trace := [EMPTY, s, Apply(cfg, s, steps[1])];
  }

  // ---------------------------------------------------------------------------------------
  // The bounds

  /** How late, beyond the offset, the INCR of an admitted check can be: its second INCR follows
      its first. */
  function Lateness(k: Slack, w: Window): nat {
    if w.Sustained? || k.sustained <= k.burst then k.sustained else k.burst
  }

  /** How many counters of a bucket can live one after the other. */
  function Lives(w: Window, late: nat): nat { 1 + (Length(w) - 1 + late) / Ttl(w) }

  /** Distinct numbers between one and `n` belong to at most `n` items. */
  lemma {:induction false} Pigeonhole(ids: set<nat>, value: nat -> nat, n: nat)
    requires forall id :: id in ids ==> 1 <= value(id) <= n
    requires forall i, j :: i in ids && j in ids && i != j ==> value(i) != value(j)
    ensures |ids| <= n
    decreases n
  {
    if ids != {} {
      if id :| id in ids && value(id) == n {
        Pigeonhole(ids - {id}, value, n - 1);
      } else if n > 0 {
        Pigeonhole(ids, value, n - 1);
      }
    }
  }

  /** Numbers between one and `n`, distinct within each of `lives` lives. */
  ghost predicate Spread(ids: set<nat>, value: nat -> nat, life: nat -> int, n: nat, lives: nat) {
    && (forall id :: id in ids ==> 1 <= value(id) <= n && 0 <= life(id) < lives)
    && (forall i, j :: i in ids && j in ids && i != j && life(i) == life(j) ==> value(i) != value(j))
  }

  ghost function InLife(ids: set<nat>, life: nat -> int, l: int): set<nat> { set id | id in ids && life(id) == l }

  lemma OneLife(ids: set<nat>, value: nat -> nat, life: nat -> int, n: nat, lives: nat, l: int)
    requires Spread(ids, value, life, n, lives)
    ensures |InLife(ids, life, l)| <= n
  {
    Pigeonhole(InLife(ids, life, l), value, n);
  }

  lemma EarlierLives(ids: set<nat>, value: nat -> nat, life: nat -> int, n: nat, lives: nat)
    requires Spread(ids, value, life, n, lives) && lives > 0
    ensures Spread(ids - InLife(ids, life, lives - 1), value, life, n, lives - 1)
  {
  }

  /** So there are at most `n` of them to a life. */
  lemma {:induction false} LivesPigeonhole(ids: set<nat>, value: nat -> nat, life: nat -> int, n: nat, lives: nat)
    requires Spread(ids, value, life, n, lives)
    ensures |ids| <= n * lives
    decreases lives
  {
    if lives == 0 {
      assert ids == {};
    } else {
      var last := InLife(ids, life, lives - 1);
      OneLife(ids, value, life, n, lives, lives - 1);
      EarlierLives(ids, value, life, n, lives);
      LivesPigeonhole(ids - last, value, life, n, lives - 1);
      InTwo(ids, last);
      OneMoreTime(n, lives);
    }
  }

  lemma InTwo(all: set<nat>, part: set<nat>)
    requires part <= all
    ensures |all| == |all - part| + |part|
  {
    assert all == (all - part) + part;
  }

  function TallyOf(s: State, w: Window, id: nat): Tally {
    if id in s.checks && w in s.checks[id].counts then s.checks[id].counts[w] else Tally(0, 0, 0)
  }

  /** Which counter of the bucket, counted from the earliest possible birth. */
  function Life(x: Tally, w: Window, base: int): int { (x.born - base) / Ttl(w) }

  lemma SameLife(a: Tally, b: Tally, w: Window, base: int)
    requires Apart(a, b, w) && Life(a, w, base) == Life(b, w, base)
    ensures a.born == b.born && a.value != b.value
  {
    match w case Burst => case Sustained =>
  }

  /** Counters of one bucket, born in time, have lives in range. */
  lemma LifeInRange(x: Tally, w: Window, base: int, late: nat)
    requires base <= x.born <= base + Length(w) - 1 + late
    ensures 0 <= Life(x, w, base) < Lives(w, late)
  {
    match w case Burst => case Sustained =>
  }

  /** The counts of these checks, spread over the lives of their counters. */
  ghost predicate CountsSpread(s: State, w: Window, ids: set<nat>, base: int, n: nat, lives: nat) {
    Spread(ids, (id: nat) => TallyOf(s, w, id).value, (id: nat) => Life(TallyOf(s, w, id), w, base), n, lives)
  }

  /** An admitted check's count is within the limit and belongs to one of the lives. */
  lemma AdmittedInRange(cfg: Rules, s: State, offset: int, k: Slack, t: Target, w: Window, bucket: nat, id: nat)
    requires cfg.enabled && Inv(cfg, s, w, offset, k) && id in Admitted(s, t, w, bucket)
    ensures w in s.checks[id].counts
    ensures var x := TallyOf(s, w, id);
            && 1 <= x.value <= cfg.limit(t, w)
            && 0 <= Life(x, w, bucket * Length(w) + offset) < Lives(w, Lateness(k, w))
  {
    var c := s.checks[id];
    assert Progress(cfg, c) && Covered(cfg, s, c, w) && InTime(c, w, offset, k);
    ClockInBucket(c, w);
    LifeInRange(c.counts[w], w, bucket * Length(w) + offset, Lateness(k, w));
  }

  lemma AdmittedAreSpread(cfg: Rules, s: State, offset: int, k: Slack, t: Target, w: Window, bucket: nat)
    requires cfg.enabled && Inv(cfg, s, w, offset, k)
    ensures CountsSpread(s, w, Admitted(s, t, w, bucket), bucket * Length(w) + offset, cfg.limit(t, w), Lives(w, Lateness(k, w)))
  {
    var ids, base := Admitted(s, t, w, bucket), bucket * Length(w) + offset;
    forall id | id in ids
      ensures 1 <= TallyOf(s, w, id).value <= cfg.limit(t, w)
      ensures 0 <= Life(TallyOf(s, w, id), w, base) < Lives(w, Lateness(k, w))
    {
      AdmittedInRange(cfg, s, offset, k, t, w, bucket, id);
    }
    forall i, j | i in ids && j in ids && i != j && Life(TallyOf(s, w, i), w, base) == Life(TallyOf(s, w, j), w, base)
      ensures TallyOf(s, w, i).value != TallyOf(s, w, j).value
    {
      AdmittedInRange(cfg, s, offset, k, t, w, bucket, i);
      AdmittedInRange(cfg, s, offset, k, t, w, bucket, j);
      assert CountsDiffer(s.checks[i], s.checks[j], w);
      SameLife(TallyOf(s, w, i), TallyOf(s, w, j), w, base);
    }
  }

  /** In every run of interleaved checks, with any faults and any lag, HTTP admits at most the
      limit per bucket of each window and life of its counter. A counter that outlives the lag
      has one life. */
  lemma BucketBound(cfg: Rules, trace: seq<State>, steps: seq<Step>, offset: int, k: Slack, i: nat,
                    t: Target, w: Window, bucket: nat)
    requires cfg.enabled && Separating(cfg)
    requires IsRun(cfg, trace, steps, offset, k) && i < |trace|
    ensures |Admitted(trace[i], t, w, bucket)| <= cfg.limit(t, w) * Lives(w, Lateness(k, w))
    ensures Lives(w, Lateness(k, w)) == 1 <==> Lateness(k, w) <= Ttl(w) - Length(w)
  {
    RunsKeepInv(cfg, trace, steps, w, offset, k, i);
    var s, base := trace[i], bucket * Length(w) + offset;
    AdmittedAreSpread(cfg, s, offset, k, t, w, bucket);
    LivesPigeonhole(Admitted(s, t, w, bucket), (id: nat) => TallyOf(s, w, id).value,
                    (id: nat) => Life(TallyOf(s, w, id), w, base), cfg.limit(t, w), Lives(w, Lateness(k, w)));
    OneLifeExactlyWhen(w, Lateness(k, w));
  }

  lemma OneLifeExactlyWhen(w: Window, late: nat)
    ensures Lives(w, late) == 1 <==> late <= Ttl(w) - Length(w)
  {
    match w case Burst => case Sustained =>
  }

  /** Hence, by the servers' clock readings, at most twice that in any interval as long as the window. */
  lemma IntervalBound(cfg: Rules, trace: seq<State>, steps: seq<Step>, offset: int, k: Slack, i: nat,
                      t: Target, w: Window, from: nat)
    requires cfg.enabled && Separating(cfg)
    requires IsRun(cfg, trace, steps, offset, k) && i < |trace|
    ensures |AdmittedBetween(trace[i], t, from, from + Length(w))| <= 2 * (cfg.limit(t, w) * Lives(w, Lateness(k, w)))
  {
    BucketBound(cfg, trace, steps, offset, k, i, t, w, from / Length(w));
    BucketBound(cfg, trace, steps, offset, k, i, t, w, from / Length(w) + 1);
    WithinTwoBuckets(trace[i], t, w, from);
  }

  lemma InOneOfTwo(s: State, t: Target, w: Window, from: nat, id: nat)
    requires id in AdmittedBetween(s, t, from, from + Length(w))
    ensures var b := from / Length(w); id in Admitted(s, t, w, b) || id in Admitted(s, t, w, b + 1)
  {
    TwoBuckets(from, s.checks[id].clock, w);
  }

  lemma WithinTwoBuckets(s: State, t: Target, w: Window, from: nat)
    ensures var b := from / Length(w);
            |AdmittedBetween(s, t, from, from + Length(w))| <= |Admitted(s, t, w, b)| + |Admitted(s, t, w, b + 1)|
  {
    var b := from / Length(w);
    var all, first, second := AdmittedBetween(s, t, from, from + Length(w)), Admitted(s, t, w, b), Admitted(s, t, w, b + 1);
    forall id | id in all ensures id in first + second {
      InOneOfTwo(s, t, w, from, id);
    }
    SubsetSize(all, first + second);
  }

  /** Checks that HTTP lets through, by the time at which their INCR reached Redis. */
  ghost function AdmittedAt(s: State, t: Target, w: Window, from: int, until: int): set<nat> {
    set id | id in s.checks && s.checks[id].target == t && s.checks[id].phase.Done? && HttpAdmits(s.checks[id].result)
             && w in s.checks[id].counts && from <= s.checks[id].counts[w].at < until
  }

  /** Buckets of a window that the clock readings behind an interval of its length can meet, when
      the lag varies by `late`: two, or more with a larger lag. */
  function Spans(w: Window, late: nat): nat { 1 + (2 * Length(w) + late - 2) / Length(w) }

  /** Checks admitted in `n` consecutive buckets. */
  lemma {:induction false} BucketsAddUp(s: State, t: Target, w: Window, from: nat, n: nat, most: nat) returns (all: set<nat>)
    requires forall b: nat :: |Admitted(s, t, w, b)| <= most
    ensures |all| <= most * n
    ensures forall b: nat :: from <= b < from + n ==> Admitted(s, t, w, b) <= all
    decreases n
  {
    all := {};
    if n > 0 {
      var before := BucketsAddUp(s, t, w, from, n - 1, most);
      all := before + Admitted(s, t, w, from + n - 1);
      assert |all| <= |before| + most;
      OneMoreTime(most, n);
    }
  }

  function FirstBucketOf(w: Window, earliest: int): nat { if earliest < 0 then 0 else earliest / Length(w) }

  /** Clock readings between `earliest` and `earliest + late + Length(w) - 1` lie in that many buckets. */
  lemma ClocksSpan(w: Window, earliest: int, late: nat, clock: nat)
    requires earliest <= clock < earliest + late + Length(w)
    ensures FirstBucketOf(w, earliest) <= clock / Length(w) < FirstBucketOf(w, earliest) + Spans(w, late)
  {
    match w case Burst => case Sustained =>
  }

  /** In any interval of Redis time as long as the window, at most the bucket bound for each bucket
      that the interval can meet. */
  lemma RedisIntervalBound(cfg: Rules, trace: seq<State>, steps: seq<Step>, offset: int, k: Slack, i: nat,
                           t: Target, w: Window, from: int)
    requires cfg.enabled && Separating(cfg)
    requires IsRun(cfg, trace, steps, offset, k) && i < |trace|
    ensures |AdmittedAt(trace[i], t, w, from, from + Length(w))|
            <= cfg.limit(t, w) * Lives(w, Lateness(k, w)) * Spans(w, Lateness(k, w))
  {
    var s, late, most := trace[i], Lateness(k, w), cfg.limit(t, w) * Lives(w, Lateness(k, w));
    forall b: nat ensures |Admitted(s, t, w, b)| <= most {
      BucketBound(cfg, trace, steps, offset, k, i, t, w, b);
    }
    RunsKeepInv(cfg, trace, steps, w, offset, k, i);
    var all := BucketsAddUp(s, t, w, FirstBucketOf(w, from - offset - late), Spans(w, late), most);
    forall id | id in AdmittedAt(s, t, w, from, from + Length(w)) ensures id in all {
      ArrivalInBucket(cfg, s, t, w, offset, k, from, id);
      assert id in Admitted(s, t, w, s.checks[id].clock / Length(w));
    }
    SubsetSize(AdmittedAt(s, t, w, from, from + Length(w)), all);
  }

  lemma ArrivalInBucket(cfg: Rules, s: State, t: Target, w: Window, offset: int, k: Slack, from: int, id: nat)
    requires cfg.enabled && Inv(cfg, s, w, offset, k) && id in AdmittedAt(s, t, w, from, from + Length(w))
    ensures var first := FirstBucketOf(w, from - offset - Lateness(k, w));
            first <= s.checks[id].clock / Length(w) < first + Spans(w, Lateness(k, w))
  {
    var c := s.checks[id];
    assert Progress(cfg, c) && InTime(c, w, offset, k);
    ClocksSpan(w, from - offset - Lateness(k, w), Lateness(k, w), c.clock);
  }

  lemma TwoBuckets(from: nat, clock: nat, w: Window)
    requires from <= clock < from + Length(w)
    ensures clock / Length(w) == from / Length(w) || clock / Length(w) == from / Length(w) + 1
  {
    match w case Burst => case Sustained =>
  }

  lemma {:induction false} SubsetSize(a: set<nat>, b: set<nat>)
    requires a <= b
    ensures |a| <= |b|
  {
    assert b == a + (b - a);
  }
}
