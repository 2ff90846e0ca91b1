/** The limiter as deployed: the table's limits and keys, and the bounds they give over whole runs. */
module RateLimitBounds {
  import opened Text
  import opened RateLimitPolicy
  import opened RateLimitKeys
  import opened RateLimiter
  import opened RateLimitRuns
  import opened RateLimitMargin

  datatype Settings = Settings(enabled: bool, multiplier: real, failClosed: set<string>)

  /** A check is only ever started for a table category and a dimension its policy limits. */
  predicate IsLimited(t: Target) {
    PolicyOf(t.category).Some? && LimitsFor(PolicyOf(t.category).value, t.dimension).Some?
  }

  function LimitOf(cfg: Settings, t: Target, w: Window): nat {
    if !IsLimited(t) then 0
    else
      var raw := LimitsFor(PolicyOf(t.category).value, t.dimension).value;
      Scaled(match w case Burst => raw.burst case Sustained => raw.sustained, cfg.multiplier)
  }

  function FailsClosed(cfg: Settings, t: Target): bool {
    t.category in cfg.failClosed || (PolicyOf(t.category).Some? && PolicyOf(t.category).value.failClosed)
  }

  function Deployed(cfg: Settings): Rules {
    Rules(cfg.enabled, IsLimited, BucketKey, (t, w) => LimitOf(cfg, t, w), t => FailsClosed(cfg, t))
  }

  lemma DeployedKeysSeparate(cfg: Settings)
    ensures Separating(Deployed(cfg))
  {
    forall w, t, n, v, u, m | IsLimited(t) && IsLimited(u) && BucketKey(w, t, n) == BucketKey(v, u, m)
      ensures w == v && t == u && n == m
    {
      CategoriesAreColonFree(t.category);
      CategoriesAreColonFree(u.category);
      KeysAreInjective(w, t, n, v, u, m);
    }
  }

  lemma DeployedLimitsArePositive(cfg: Settings, t: Target, w: Window)
    requires IsLimited(t)
    ensures LimitOf(cfg, t, w) >= 1
  {
  }

  /** The theorem for the deployed limiter: when the lag of the INCR calls varies by no more than
      the margins, at most the scaled policy limit per bucket, at most twice that in any interval of
      clock readings of the window's length, and at most three times in any such interval of Redis
      time. */
  lemma DeployedBound(cfg: Settings, s: State, offset: int, t: Target, w: Window, bucket: nat, from: nat, time: int)
    requires cfg.enabled && Reached(Deployed(cfg), s, offset, MARGIN)
    ensures |Admitted(s, t, w, bucket)| <= LimitOf(cfg, t, w)
    ensures |AdmittedBetween(s, t, from, from + Length(w))| <= 2 * LimitOf(cfg, t, w)
    ensures |AdmittedAt(s, t, w, time, time + Length(w))| <= 3 * LimitOf(cfg, t, w)
  {
    var rules := Deployed(cfg);
    DeployedKeysSeparate(cfg);
    var trace, steps :| IsRun(rules, trace, steps, offset, MARGIN) && trace[|steps|] == s;
    BucketBound(rules, trace, steps, offset, MARGIN, |steps|, t, w, bucket);
    IntervalBound(rules, trace, steps, offset, MARGIN, |steps|, t, w, from);
    RedisIntervalBound(rules, trace, steps, offset, MARGIN, |steps|, t, w, time);
    MarginSpans(w);
  }

  lemma MarginSpans(w: Window)
    ensures Lives(w, Lateness(MARGIN, w)) == 1 && Spans(w, Lateness(MARGIN, w)) == 3
  {
    match w case Burst => case Sustained =>
  }

  /** And the margins are exact for every target that is ever checked. */
  lemma DeployedMargins(cfg: Settings, t: Target, k: Slack)
    requires cfg.enabled && IsLimited(t)
    ensures NeverOverflows(Deployed(cfg), t, Burst, k) <==>
            Lateness(k, Burst) <= 5_000 || MostInBurst(LimitOf(cfg, t, Sustained), k) <= LimitOf(cfg, t, Burst)
    ensures NeverOverflows(Deployed(cfg), t, Sustained, k) <==>
            k.sustained <= 10_000 || MostInMinute(LimitOf(cfg, t, Burst), k) <= LimitOf(cfg, t, Sustained)
  {
    DeployedKeysSeparate(cfg);
    DeployedLimitsArePositive(cfg, t, Burst);
    DeployedLimitsArePositive(cfg, t, Sustained);
    BurstMarginIsExact(Deployed(cfg), t, k);
    SustainedMarginIsExact(Deployed(cfg), t, k);
  }

  /** The WebSocket handshake trusts `allowed`; because its policy fails closed, it admits no check
      that HTTP would have refused, whatever the faults and delays. */
  lemma HandshakeAdmitsNoMore(cfg: Settings, trace: seq<State>, steps: seq<Step>, i: nat, id: nat)
    requires IsTrace(Deployed(cfg), trace, steps) && i < |trace|
    requires id in trace[i].checks && trace[i].checks[id].target.category == "voice_ws" && trace[i].checks[id].phase.Done?
    ensures WebSocketAdmits(trace[i].checks[id].result) ==> HttpAdmits(trace[i].checks[id].result)
  {
    VoiceFailsClosed(trace[i].checks[id].target);
    RefusedThoughAllowedExactlyWhen(Deployed(cfg), trace, steps, i, id);
  }

  lemma VoiceFailsClosed(t: Target)
    requires t.category == "voice_ws"
    ensures PolicyOf(t.category).Some? && PolicyOf(t.category).value.failClosed
  {
    assert POLICIES[5].category == "voice_ws";
    assert forall i :: 0 <= i < |POLICIES| && i != 5 ==> |POLICIES[i].category| != 8 || POLICIES[i].category[0] != 'v';
  }
}
