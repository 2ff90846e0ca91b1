/** Exactly which checks the limiter lets through: each is judged by its number among the calls of
    its bucket, whatever faults and interleavings there are. */
module RateLimitAdmission {
  import opened Text
  import opened RateLimitPolicy
  import opened RateLimitKeys
  import opened RateLimiter
  import opened RateLimitRuns
  import opened RateLimitMargin
  import opened RateLimitBounds

  /** Step `j` is an INCR for the bucket that takes effect, whether or not its answer arrives. */
  predicate IsArrival(trace: seq<State>, steps: seq<Step>, j: nat, t: Target, w: Window, bucket: nat)
    requires j < |trace| && j < |steps|
  {
    steps[j].Redis? && !steps[j].reply.LostBefore? && steps[j].id in trace[j].checks
    && var c := trace[j].checks[steps[j].id]; c.phase == Incr(w) && c.target == t && c.clock / Length(w) == bucket
  }

  /** How many of them there were in the first `n` steps. */
  function Arrivals(trace: seq<State>, steps: seq<Step>, n: nat, t: Target, w: Window, bucket: nat): nat
    requires n <= |steps| && n <= |trace|
  {
    if n == 0 then 0
    else Arrivals(trace, steps, n - 1, t, w, bucket) + if IsArrival(trace, steps, n - 1, t, w, bucket) then 1 else 0
  }

  /** Step `j` is the answered INCR of check `id` for the window. */
  predicate IsOwnCall(trace: seq<State>, steps: seq<Step>, j: nat, id: nat, w: Window)
    requires j < |trace| && j < |steps|
  {
    steps[j] == Redis(id, Normal) && id in trace[j].checks && trace[j].checks[id].phase == Incr(w)
  }

  /** The number of check `id` among the calls of its bucket, its own included; zero before its call. */
  function NumberOf(trace: seq<State>, steps: seq<Step>, n: nat, id: nat, w: Window): nat
    requires n <= |steps| && n <= |trace|
  {
    if n == 0 then 0
    else if IsOwnCall(trace, steps, n - 1, id, w)
    then
      var c := trace[n - 1].checks[id];
      Arrivals(trace, steps, n, c.target, w, c.clock / Length(w))
    else NumberOf(trace, steps, n - 1, id, w)
  }

  // ---------------------------------------------------------------------------------------
  // Counters count arrivals

  predicate WithinMargins(k: Slack) { k.burst <= Ttl(Burst) - Length(Burst) && k.sustained <= Ttl(Sustained) - Length(Sustained) }

  /** Within the margins a counter that exists is alive when a call for its bucket arrives. */
  lemma LiveOnArrival(cfg: Rules, s: State, c: Check, w: Window, offset: int, k: Slack)
    requires Separating(cfg) && Inv(cfg, s, w, offset, k) && cfg.limited(c.target) && WithinMargins(k)
    requires OnTime(s, c, w, offset, k) && KeyOf(cfg, c, w) in s.store
    ensures Live(s.store[KeyOf(cfg, c, w)], s.now)
  {
    DeadlineIsLate(cfg, s, c, w, offset, k);
    ClockInBucket(c, w);
    assert KeyOf(cfg, c, w) == cfg.key(w, c.target, BucketOf(c, w));
  }

  predicate StandsAt(cfg: Rules, store: map<string, Entry>, t: Target, w: Window, bucket: nat, n: nat) {
    var key := cfg.key(w, t, bucket);
    if n == 0 then key !in store else key in store && store[key].count == n
  }

  /** One step, as one bucket sees it. */
  lemma StepCounts(cfg: Rules, s: State, step: Step, t: Target, w: Window, bucket: nat, n: nat, offset: int, k: Slack)
    requires Separating(cfg) && Inv(cfg, s, w, offset, k) && WithinMargins(k) && cfg.limited(t)
    requires Enabled(cfg, s, step) && Timely(cfg, s, step, offset, k) && StandsAt(cfg, s.store, t, w, bucket, n)
    ensures var arrives := step.Redis? && !step.reply.LostBefore? && s.checks[step.id].phase == Incr(w)
                           && s.checks[step.id].target == t && s.checks[step.id].clock / Length(w) == bucket;
            StandsAt(cfg, Apply(cfg, s, step).store, t, w, bucket, if arrives then n + 1 else n)
  {
    if step.Redis? && !step.reply.LostBefore? {
      var c, key := s.checks[step.id], cfg.key(w, t, bucket);
      if (c.phase.Incr? || c.phase.Expire?) && KeyOf(cfg, c, c.phase.window) == key {
        assert c.phase.window == w && c.target == t && BucketOf(c, w) == bucket;
        if c.phase.Incr? && key in s.store {
          LiveOnArrival(cfg, s, c, w, offset, k);
        }
      }
    }
  }

  /** In every run within the margins, faulty or not, each counter stands at the arrivals of its bucket. */
  lemma {:induction false} CountersCountArrivals(
    cfg: Rules, trace: seq<State>, steps: seq<Step>, offset: int, k: Slack, i: nat, t: Target, w: Window, bucket: nat)
    requires Separating(cfg) && IsRun(cfg, trace, steps, offset, k) && WithinMargins(k) && i < |trace| && cfg.limited(t)
    ensures StandsAt(cfg, trace[i].store, t, w, bucket, Arrivals(trace, steps, i, t, w, bucket))
    decreases i
  {
    if i > 0 {
      CountersCountArrivals(cfg, trace, steps, offset, k, i - 1, t, w, bucket);
      RunsKeepInv(cfg, trace, steps, w, offset, k, i - 1);
      assert Enabled(cfg, trace[i - 1], steps[i - 1]) && Timely(cfg, trace[i - 1], steps[i - 1], offset, k);
      StepCounts(cfg, trace[i - 1], steps[i - 1], t, w, bucket, Arrivals(trace, steps, i - 1, t, w, bucket), offset, k);
    }
  }

  // ---------------------------------------------------------------------------------------
  // Checks are judged by their numbers

  /** What a check knows: its numbers, and once it is done without a failure, the judgement on them. */
  predicate Judged(cfg: Rules, c: Check, burst: nat, sustained: nat, failed: bool) {
    && (if Burst in c.counts then c.counts[Burst].value == burst else burst == 0)
    && (if Sustained in c.counts then c.counts[Sustained].value == sustained else sustained == 0)
    && (c.phase.Done? && !failed && cfg.enabled ==> Burst in c.counts && Sustained in c.counts && c.result == Verdict(cfg, c))
  }

  lemma OwnCallCounts(cfg: Rules, trace: seq<State>, steps: seq<Step>, offset: int, k: Slack, j: nat, id: nat, w: Window)
    requires Separating(cfg) && IsRun(cfg, trace, steps, offset, k) && WithinMargins(k) && j < |steps|
    requires IsOwnCall(trace, steps, j, id, w)
    ensures var c, d := trace[j].checks[id], trace[j + 1].checks[id];
            w in d.counts && d.counts[w].value == Arrivals(trace, steps, j + 1, c.target, w, c.clock / Length(w))
  {
    var c := trace[j].checks[id];
    assert Enabled(cfg, trace[j], steps[j]) && trace[j + 1] == Apply(cfg, trace[j], steps[j]);
    CountersCountArrivals(cfg, trace, steps, offset, k, j + 1, c.target, w, BucketOf(c, w));
    assert IsArrival(trace, steps, j, c.target, w, BucketOf(c, w));
  }

  /** A step leaves the counts of a check alone, unless it is the check's own call. */
  lemma OtherStepsKeepCounts(cfg: Rules, s: State, step: Step, id: nat, w: Window)
    requires Enabled(cfg, s, step) && id in s.checks && !(step == Redis(id, Normal) && s.checks[id].phase == Incr(w))
    ensures id in Apply(cfg, s, step).checks
    ensures var d := Apply(cfg, s, step).checks[id];
            (w in d.counts <==> w in s.checks[id].counts) && (w in d.counts ==> d.counts[w] == s.checks[id].counts[w])
  {
  }

  lemma StepJudges(cfg: Rules, s: State, step: Step, id: nat, failed: bool)
    requires Enabled(cfg, s, step) && id in s.checks && Progress(cfg, s.checks[id])
    requires s.checks[id].phase.Done? && !failed && cfg.enabled ==>
               Burst in s.checks[id].counts && Sustained in s.checks[id].counts && s.checks[id].result == Verdict(cfg, s.checks[id])
    ensures var d := Apply(cfg, s, step).checks[id];
            d.phase.Done? && !failed && !CallFails(step, id) && cfg.enabled ==>
              Burst in d.counts && Sustained in d.counts && d.result == Verdict(cfg, d)
  {
  }

  lemma {:induction false} RunJudges(
    cfg: Rules, trace: seq<State>, steps: seq<Step>, offset: int, k: Slack, i: nat, id: nat)
    requires Separating(cfg) && IsRun(cfg, trace, steps, offset, k) && WithinMargins(k) && i < |trace|
    ensures id in trace[i].checks ==>
              Judged(cfg, trace[i].checks[id], NumberOf(trace, steps, i, id, Burst), NumberOf(trace, steps, i, id, Sustained),
                     HasFailed(steps, i, id))
    ensures id !in trace[i].checks ==> NumberOf(trace, steps, i, id, Burst) == NumberOf(trace, steps, i, id, Sustained) == 0
    decreases i
  {
    if i > 0 {
      var j := i - 1;
      RunJudges(cfg, trace, steps, offset, k, j, id);
      RunsKeepInv(cfg, trace, steps, Burst, offset, k, j);
      assert Enabled(cfg, trace[j], steps[j]) && trace[i] == Apply(cfg, trace[j], steps[j]);
      assert HasFailed(steps, i, id) <==> HasFailed(steps, j, id) || CallFails(steps[j], id);
      if id in trace[j].checks {
        StepJudges(cfg, trace[j], steps[j], id, HasFailed(steps, j, id));
        NumberStays(cfg, trace, steps, offset, k, j, id, Burst);
        NumberStays(cfg, trace, steps, offset, k, j, id, Sustained);
      }
    }
  }

  lemma NumberStays(cfg: Rules, trace: seq<State>, steps: seq<Step>, offset: int, k: Slack, j: nat, id: nat, w: Window)
    requires Separating(cfg) && IsRun(cfg, trace, steps, offset, k) && WithinMargins(k) && j < |steps| && id in trace[j].checks
    requires var c := trace[j].checks[id];
             if w in c.counts then c.counts[w].value == NumberOf(trace, steps, j, id, w) else NumberOf(trace, steps, j, id, w) == 0
    ensures id in trace[j + 1].checks
    ensures var c := trace[j + 1].checks[id];
            if w in c.counts then c.counts[w].value == NumberOf(trace, steps, j + 1, id, w) else NumberOf(trace, steps, j + 1, id, w) == 0
  {
    assert Enabled(cfg, trace[j], steps[j]) && trace[j + 1] == Apply(cfg, trace[j], steps[j]);
    if IsOwnCall(trace, steps, j, id, w) {
      OwnCallCounts(cfg, trace, steps, offset, k, j, id, w);
    } else {
      OtherStepsKeepCounts(cfg, trace[j], steps[j], id, w);
    }
  }

  /** In every run within the margins: HTTP admits a finished check exactly when none of its Redis
      calls failed and its number in each of its two buckets is within the limit. */
  lemma AdmittedExactlyWhen(cfg: Rules, trace: seq<State>, steps: seq<Step>, offset: int, k: Slack, i: nat, id: nat)
    requires cfg.enabled && Separating(cfg) && IsRun(cfg, trace, steps, offset, k) && WithinMargins(k) && i < |trace|
    requires id in trace[i].checks && trace[i].checks[id].phase.Done?
    ensures var c := trace[i].checks[id];
            HttpAdmits(c.result) <==>
              && !HasFailed(steps, i, id)
              && NumberOf(trace, steps, i, id, Burst) <= cfg.limit(c.target, Burst)
              && NumberOf(trace, steps, i, id, Sustained) <= cfg.limit(c.target, Sustained)
    ensures HttpAnswer(trace[i].checks[id].result) ==
            if HasFailed(steps, i, id) then 503 else if HttpAdmits(trace[i].checks[id].result) then 200 else 429
    ensures !HasFailed(steps, i, id) ==>
              (WebSocketAdmits(trace[i].checks[id].result) <==> HttpAdmits(trace[i].checks[id].result))
  {
    RunJudges(cfg, trace, steps, offset, k, i, id);
    ResultsFit(cfg, trace, steps, i, id);
  }

  /** With limiting switched off every check is admitted at once. */
  lemma {:induction false} DisabledAdmitsAll(cfg: Rules, trace: seq<State>, steps: seq<Step>, i: nat, id: nat)
    requires !cfg.enabled && IsTrace(cfg, trace, steps) && i < |trace| && id in trace[i].checks
    ensures trace[i].checks[id].phase.Done?
    ensures HttpAnswer(trace[i].checks[id].result) == 200 && WebSocketAdmits(trace[i].checks[id].result)
    decreases i
  {
    if i > 0 {
      assert Enabled(cfg, trace[i - 1], steps[i - 1]) && trace[i] == Apply(cfg, trace[i - 1], steps[i - 1]);
      if id in trace[i - 1].checks {
        DisabledAdmitsAll(cfg, trace, steps, i - 1, id);
      }
    }
  }

  // ---------------------------------------------------------------------------------------
  // The deployed table

  /** No two entries share a category. */
  lemma CategoriesAreDistinct(i: nat, j: nat)
    requires i < j < |POLICIES|
    ensures POLICIES[i].category != POLICIES[j].category
  {
    CategoryMark(i);
    CategoryMark(j);
  }

  /** Length, first and eleventh letter of every category. */
  function Mark(i: nat): (nat, char, char) {
    match i
    case 0 => (10, 'a', ' ')
    case 1 => (4, 'a', ' ')
    case 2 => (4, 'd', ' ')
    case 3 => (8, 'a', ' ')
    case 4 => (15, 's', 'r')
    case 5 => (8, 'v', ' ')
    case 6 => (7, 'l', ' ')
    case 7 => (16, 'k', 'u')
    case 8 => (17, 'k', 'r')
    case 9 => (16, 'k', 's')
    case 10 => (21, 'k', 'c')
    case 11 => (13, 'm', 'r')
    case 12 => (6, 'r', ' ')
    case 13 => (17, 'o', '_')
    case 14 => (10, 'o', ' ')
    case 15 => (9, 'd', ' ')
    case 16 => (8, 's', ' ')
    case _ => (11, 'a', 't')
  }

  lemma CategoryMark(i: nat)
    requires i < |POLICIES|
    ensures var c := POLICIES[i].category;
            |c| == Mark(i).0 && c[0] == Mark(i).1 && (|c| > 10 ==> c[10] == Mark(i).2)
  {
  }

  lemma EntryOf(e: nat)
    requires e < |POLICIES|
    ensures PolicyOf(POLICIES[e].category) == Some(POLICIES[e])
  {
    var category, found := POLICIES[e].category, PolicyOf(POLICIES[e].category);
    assert found.Some? && found.value in POLICIES && found.value.category == category;
    var j :| 0 <= j < |POLICIES| && POLICIES[j] == found.value;
    OnlyEntry(e, j);
  }

  lemma OnlyEntry(e: nat, j: nat)
    requires e < |POLICIES| && j < |POLICIES| && POLICIES[j].category == POLICIES[e].category
    ensures j == e
  {
    if j < e {
      CategoriesAreDistinct(j, e);
    } else if e < j {
      CategoriesAreDistinct(e, j);
    }
  }

  /** For every table entry, dimension and multiplier, in every run within the margins, with any
      faults: HTTP admits a finished check exactly when none of its Redis calls failed, its number
      in its ten seconds is at most the scaled burst field and its number in its minute at most the
      scaled sustained field -- the entry's own for addresses, the section's for organisations and
      sessions, the organisation's if there are any for users and keys. A burst field of zero in a
      section counts as missing. */
  lemma AdmittedByTable(cfg: Settings, trace: seq<State>, steps: seq<Step>, offset: int, k: Slack, i: nat, id: nat, e: nat)
    requires cfg.enabled && IsRun(Deployed(cfg), trace, steps, offset, k) && i < |trace|
    requires k.burst <= 5_000 && k.sustained <= 10_000
    requires id in trace[i].checks && trace[i].checks[id].phase.Done?
    requires e < |POLICIES| && trace[i].checks[id].target.category == POLICIES[e].category
    ensures var c, p, m := trace[i].checks[id], POLICIES[e], cfg.multiplier;
            var ok, burst, sustained :=
              !HasFailed(steps, i, id), NumberOf(trace, steps, i, id, Burst), NumberOf(trace, steps, i, id, Sustained);
            match c.target.dimension
            case Ip =>
              HttpAdmits(c.result) <==> ok && burst <= Scaled(p.limits.burst, m) && sustained <= Scaled(p.limits.sustained, m)
            case Org =>
              p.org.Some? &&
              (HttpAdmits(c.result) <==>
                 && ok && sustained <= Scaled(p.org.value.sustained, m)
                 && burst <= Scaled(if p.org.value.burst != 0 then p.org.value.burst else p.limits.burst, m))
            case Session =>
              p.session.Some? &&
              (HttpAdmits(c.result) <==>
                 && ok && sustained <= Scaled(p.session.value.sustained, m)
                 && burst <= Scaled(if p.session.value.burst != 0 then p.session.value.burst else p.limits.burst, m))
            case _ =>
              HttpAdmits(c.result) <==>
                && ok
                && sustained <= Scaled(if p.org.Some? && p.org.value.sustained != 0 then p.org.value.sustained else p.limits.sustained, m)
                && burst <= Scaled(if p.org.Some? && p.org.value.burst != 0 then p.org.value.burst else p.limits.burst, m)
  {
    DeployedKeysSeparate(cfg);
    EntryOf(e);
    RunsKeepInv(Deployed(cfg), trace, steps, Burst, offset, k, i);
    assert Progress(Deployed(cfg), trace[i].checks[id]);
    AdmittedExactlyWhen(Deployed(cfg), trace, steps, offset, k, i, id);
  }

  /** And a check that failed is reported as allowed exactly when neither the configuration nor its
      table entry makes its category fail closed. */
  lemma FailureByTable(cfg: Settings, trace: seq<State>, steps: seq<Step>, i: nat, id: nat, e: nat)
    requires IsTrace(Deployed(cfg), trace, steps) && i < |trace|
    requires id in trace[i].checks && HasFailed(steps, i, id)
    requires e < |POLICIES| && trace[i].checks[id].target.category == POLICIES[e].category
    ensures var c := trace[i].checks[id];
            && c.phase.Done? && !HttpAdmits(c.result)
            && (WebSocketAdmits(c.result) <==> c.target.category !in cfg.failClosed && !POLICIES[e].failClosed)
  {
    EntryOf(e);
    ResultsFit(Deployed(cfg), trace, steps, i, id);
  }
}
