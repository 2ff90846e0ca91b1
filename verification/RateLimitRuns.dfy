/** Runs of the limiter, built call by call: what a check does when nothing interrupts it. */
module RateLimitRuns {
  import opened Text
  import opened RateLimitKeys
  import opened RateLimiter

  /** A state reached by some run of interleaved, possibly faulty checks. */
  ghost predicate Reached(cfg: Rules, s: State, offset: int, k: Slack) {
    exists trace, steps :: IsRun(cfg, trace, steps, offset, k) && trace[|steps|] == s
  }

  lemma ReachStart(cfg: Rules, offset: int, k: Slack)
    ensures Reached(cfg, EMPTY, offset, k)
  {
    var trace: seq<State> := [EMPTY];
    var steps: seq<Step> := [];
    assert IsRun(cfg, trace, steps, offset, k) && trace[|steps|] == EMPTY;
  }

  lemma ReachNext(cfg: Rules, s: State, step: Step, offset: int, k: Slack)
    requires Reached(cfg, s, offset, k) && Enabled(cfg, s, step) && Timely(cfg, s, step, offset, k)
    ensures Reached(cfg, Apply(cfg, s, step), offset, k)
  {
    var trace, steps :| IsRun(cfg, trace, steps, offset, k) && trace[|steps|] == s;
    var s' := Apply(cfg, s, step);
    var trace', steps' := trace + [s'], steps + [step];
    assert IsRun(cfg, trace', steps', offset, k) && trace'[|steps'|] == s';
  }

  lemma Wait(cfg: Rules, s: State, now: int, k: Slack) returns (r: State)
    requires Reached(cfg, s, 0, k) && s.now <= now
    ensures Reached(cfg, r, 0, k) && r == s.(now := now)
  {
    ReachNext(cfg, s, Tick(now - s.now), 0, k);
    r := s.(now := now);
  }

  predicate Open(cfg: Rules, t: Target) { cfg.enabled && cfg.limited(t) }

  const FRESH := Result(true, false, false)

  /** The counter after an INCR and, when it is the first, the EXPIRE. */
  function Counted(store: map<string, Entry>, key: string, now: int, w: Window): Entry {
    var e := Increment(store, key, now);
    if e.count == 1 then e.(expires := Some(now + Ttl(w))) else e
  }

  /** A check between its two INCR calls. */
  function Halfway(t: Target, clock: nat, x: Tally): Check { Check(t, Incr(Sustained), clock, map[Burst := x], FRESH) }

  predicate Passed(c: Check, t: Target) { c.target == t && c.phase.Done? && HttpAdmits(c.result) }

  /** The INCR of one window and, when it is the first, the EXPIRE, without interruption. */
  lemma CountCall(cfg: Rules, s: State, id: nat, w: Window, k: Slack) returns (r: State)
    requires Reached(cfg, s, 0, k) && id in s.checks && cfg.limited(s.checks[id].target)
    requires s.checks[id].phase == Incr(w) && OnTime(s, s.checks[id], w, 0, k)
    requires w.Sustained? ==> Burst in s.checks[id].counts
    ensures Reached(cfg, r, 0, k) && r.now == s.now
    ensures var c := s.checks[id];
            var e := Counted(s.store, KeyOf(cfg, c, w), s.now, w);
            var d := c.(counts := c.counts[w := Tally(e.count, e.born, s.now)], phase := if w.Burst? then Incr(Sustained) else Done);
            && r.store == s.store[KeyOf(cfg, c, w) := e]
            && r.checks == s.checks[id := if w.Burst? then d else d.(result := Verdict(cfg, d))]
  {
    var call := Redis(id, Normal);
    r := Apply(cfg, s, call);
    ReachNext(cfg, s, call, 0, k);
    if r.checks[id].phase == Expire(w) {
      var s' := r;
      r := Apply(cfg, s', call);
      ReachNext(cfg, s', call, 0, k);
    }
  }

  /** A check starts, reads its clock, and makes its first INCR. */
  lemma FirstCall(cfg: Rules, s: State, id: nat, t: Target, clock: nat, k: Slack) returns (r: State)
    requires Open(cfg, t) && Reached(cfg, s, 0, k) && id !in s.checks && 0 <= s.now - clock <= k.burst
    ensures Reached(cfg, r, 0, k) && r.now == s.now
    ensures var key := cfg.key(Burst, t, clock / 10_000);
            var e := Counted(s.store, key, s.now, Burst);
            && r.store == s.store[key := e]
            && r.checks == s.checks[id := Halfway(t, clock, Tally(e.count, e.born, s.now))]
  {
    var s1 := Apply(cfg, s, Begin(id, t));
    ReachNext(cfg, s, Begin(id, t), 0, k);
    var s2 := Apply(cfg, s1, ReadClock(id, clock));
    ReachNext(cfg, s1, ReadClock(id, clock), 0, k);
    assert s2 == s.(checks := s.checks[id := Check(t, Incr(Burst), clock, map[], FRESH)]);
    assert BucketOf(s2.checks[id], Burst) == clock / 10_000;
    r := CountCall(cfg, s2, id, Burst, k);
  }

  /** The check makes its second INCR, and passes if both counts are within the limits. */
  lemma SecondCall(cfg: Rules, s: State, id: nat, t: Target, clock: nat, x: Tally, k: Slack) returns (r: State)
    requires Open(cfg, t) && Reached(cfg, s, 0, k) && 0 <= s.now - clock <= k.sustained
    requires id in s.checks && s.checks[id] == Halfway(t, clock, x)
    ensures Reached(cfg, r, 0, k) && r.now == s.now
    ensures var key := cfg.key(Sustained, t, clock / 60_000);
            var e := Counted(s.store, key, s.now, Sustained);
            && r.store == s.store[key := e]
            && id in r.checks && r.checks == s.checks[id := r.checks[id]] && r.checks[id].clock == clock
            && Burst in r.checks[id].counts && r.checks[id].counts[Burst] == x
            && (x.value <= cfg.limit(t, Burst) && e.count <= cfg.limit(t, Sustained) ==> Passed(r.checks[id], t))
  {
    assert BucketOf(s.checks[id], Sustained) == clock / 60_000;
    r := CountCall(cfg, s, id, Sustained, k);
  }

  /** Both calls at once. */
  lemma WholeCheck(cfg: Rules, s: State, id: nat, t: Target, clock: nat, k: Slack) returns (r: State)
    requires Open(cfg, t) && Separating(cfg) && Reached(cfg, s, 0, k) && id !in s.checks
    requires 0 <= s.now - clock <= Lateness(k, Burst)
    ensures Reached(cfg, r, 0, k) && r.now == s.now
    ensures var burst, sustained := cfg.key(Burst, t, clock / 10_000), cfg.key(Sustained, t, clock / 60_000);
            var e, f := Counted(s.store, burst, s.now, Burst), Counted(s.store, sustained, s.now, Sustained);
            && r.store == s.store[burst := e][sustained := f]
            && id in r.checks && r.checks == s.checks[id := r.checks[id]] && r.checks[id].clock == clock
            && Burst in r.checks[id].counts && r.checks[id].counts[Burst] == Tally(e.count, e.born, s.now)
            && (e.count <= cfg.limit(t, Burst) && f.count <= cfg.limit(t, Sustained) ==> Passed(r.checks[id], t))
  {
    var burst, sustained := cfg.key(Burst, t, clock / 10_000), cfg.key(Sustained, t, clock / 60_000);
    assert burst != sustained;
    var e := Counted(s.store, burst, s.now, Burst);
    var s1 := FirstCall(cfg, s, id, t, clock, k);
    assert Counted(s1.store, sustained, s.now, Sustained) == Counted(s.store, sustained, s.now, Sustained);
    r := SecondCall(cfg, s1, id, t, clock, Tally(e.count, e.born, s.now), k);
  }
}
