/** The ingestion job queue on PostgreSQL: any number of workers claim with SKIP LOCKED, keep
    the row lock while they process, and publish the new status only when they commit. A
    crash rolls the worker's transaction back. */
module IngestQueue {
  import opened Text

  datatype Status = Queued | Running | Completed | Failed

  /** A committed row. */
  datatype Job = Job(createdAt: int, status: Status)

  /** A worker's open transaction: the locked job and its uncommitted status. */
  datatype Txn = Txn(job: nat, local: Status, processed: bool)

  datatype State = State(jobs: map<nat, Job>, held: map<nat, Txn>)

  /** Processing marks the job completed, marks it failed, or raises without marking it. */
  datatype Outcome = Succeeds | FailsRecorded | RaisesUnrecorded

  datatype Step =
    | Enqueue(job: nat, createdAt: int)
    | Claim(worker: nat, job: nat)
    | FindNothing(worker: nat)
    | Process(worker: nat, outcome: Outcome)
    | Commit(worker: nat)
    | Crash(worker: nat)

  const EMPTY := State(map[], map[])

  predicate Locked(s: State, job: nat) {
    exists w | w in s.held :: s.held[w].job == job
  }

  predicate Available(s: State, job: nat) {
    job in s.jobs && s.jobs[job].status.Queued? && !Locked(s, job)
  }

  /** `ORDER BY created_at LIMIT 1 FOR UPDATE SKIP LOCKED` may return `job`. */
  predicate Oldest(s: State, job: nat) {
    Available(s, job) && forall i | i in s.jobs :: Available(s, i) ==> s.jobs[job].createdAt <= s.jobs[i].createdAt
  }

  predicate Enabled(s: State, step: Step) {
    match step
    case Enqueue(job, _) => job !in s.jobs
    case Claim(w, job) => w !in s.held && Oldest(s, job)
    case FindNothing(w) => w !in s.held && forall i | i in s.jobs :: !Available(s, i)
    case Process(w, _) => w in s.held && !s.held[w].processed
    case Commit(w) => w in s.held && s.held[w].processed && s.held[w].job in s.jobs
    case Crash(w) => true
  }

  function LocalStatus(o: Outcome): Status {
    match o case Succeeds => Completed case FailsRecorded => Failed case RaisesUnrecorded => Running
  }

  function Apply(s: State, step: Step): State
    requires Enabled(s, step)
  {
    match step
    case Enqueue(job, at) => s.(jobs := s.jobs[job := Job(at, Queued)])
    case Claim(w, job) => s.(held := s.held[w := Txn(job, Running, false)])
    case FindNothing(_) => s
    case Process(w, o) => s.(held := s.held[w := s.held[w].(local := LocalStatus(o), processed := true)])
    case Commit(w) =>
      var t := s.held[w];
      State(s.jobs[t.job := s.jobs[t.job].(status := t.local)], s.held - {w})
    case Crash(w) => s.(held := s.held - {w})
  }

  ghost predicate IsRun(trace: seq<State>, steps: seq<Step>) {
    && |trace| == |steps| + 1
    && forall i :: 0 <= i < |steps| ==> Enabled(trace[i], steps[i]) && trace[i + 1] == Apply(trace[i], steps[i])
  }

  // ---------------------------------------------------------------------------------------
  // Safety

  predicate Inv(s: State) {
    && (forall w :: w in s.held ==> s.held[w].job in s.jobs && s.jobs[s.held[w].job].status.Queued? && !s.held[w].local.Queued?)
    && (forall w, v :: w in s.held && v in s.held && s.held[w].job == s.held[v].job ==> w == v)
  }

  lemma StepKeepsInv(s: State, step: Step)
    requires Inv(s) && Enabled(s, step)
    ensures Inv(Apply(s, step))
  {
  }

  lemma {:induction false} RunKeepsInv(trace: seq<State>, steps: seq<Step>, i: nat)
    requires IsRun(trace, steps) && Inv(trace[0]) && i < |trace|
    ensures Inv(trace[i])
  {
    if i > 0 {
      RunKeepsInv(trace, steps, i - 1);
      StepKeepsInv(trace[i - 1], steps[i - 1]);
    }
  }

  /** In every state of every run, a job is held by at most one worker, and every job that was
      enqueued is in exactly one place: free to be claimed, held, or settled. */
  lemma EveryJobIsInOnePlace(trace: seq<State>, steps: seq<Step>, i: nat, k: nat, job: nat)
    requires IsRun(trace, steps) && Inv(trace[0]) && i <= k < |trace| && job in trace[i].jobs
    ensures job in trace[k].jobs && trace[k].jobs[job].createdAt == trace[i].jobs[job].createdAt
    ensures forall w, v :: w in trace[k].held && v in trace[k].held && trace[k].held[w].job == trace[k].held[v].job ==> w == v
    ensures trace[k].jobs[job].status.Queued? <==> Available(trace[k], job) || Locked(trace[k], job)
    ensures !(Available(trace[k], job) && Locked(trace[k], job))
  {
    JobsStay(trace, steps, i, k, job);
    RunKeepsInv(trace, steps, k);
  }

  lemma {:induction false} JobsStay(trace: seq<State>, steps: seq<Step>, i: nat, k: nat, job: nat)
    requires IsRun(trace, steps) && i <= k < |trace| && job in trace[i].jobs
    ensures job in trace[k].jobs && trace[k].jobs[job].createdAt == trace[i].jobs[job].createdAt
    ensures !trace[i].jobs[job].status.Queued? && Inv(trace[0]) ==> trace[k].jobs[job] == trace[i].jobs[job]
    decreases k
  {
    if i < k {
      JobsStay(trace, steps, i, k - 1, job);
      assert Enabled(trace[k - 1], steps[k - 1]);
      if Inv(trace[0]) {
        RunKeepsInv(trace, steps, k - 1);
      }
    }
  }

  /** A settled job keeps its status for ever and is never claimed again. */
  lemma SettledJobIsNeverClaimed(trace: seq<State>, steps: seq<Step>, i: nat, k: nat, job: nat)
    requires IsRun(trace, steps) && Inv(trace[0]) && i <= k < |steps|
    requires job in trace[i].jobs && !trace[i].jobs[job].status.Queued?
    ensures job in trace[k + 1].jobs && trace[k + 1].jobs[job] == trace[i].jobs[job]
    ensures !(steps[k].Claim? && steps[k].job == job)
  {
    JobsStay(trace, steps, i, k, job);
    JobsStay(trace, steps, i, k + 1, job);
    assert Enabled(trace[k], steps[k]);
  }

  /** A crash loses nothing: the crashed worker's job is free again, untouched. */
  lemma CrashReturnsJob(s: State, worker: nat)
    requires Inv(s) && worker in s.held
    ensures var job := s.held[worker].job;
            var s' := Apply(s, Crash(worker));
            Available(s', job) && s'.jobs == s.jobs && (forall w :: w in s'.held <==> w in s.held && w != worker)
  {
  }

  // ---------------------------------------------------------------------------------------
  // Outcomes

  /** Step `a` processes `job`, which `worker` holds, with this outcome. */
  predicate ProcessedAt(trace: seq<State>, steps: seq<Step>, a: nat, worker: nat, job: nat, outcome: Outcome)
    requires a < |trace| && a < |steps|
  {
    steps[a] == Process(worker, outcome) && worker in trace[a].held && trace[a].held[worker].job == job
  }

  predicate Releases(step: Step, worker: nat) { step == Commit(worker) || step == Crash(worker) }

  /** The worker neither commits nor crashes in steps `a + 1` to `b - 1`. */
  predicate KeepsLock(steps: seq<Step>, a: nat, b: nat, worker: nat) {
    forall c :: a < c < b && c < |steps| ==> !Releases(steps[c], worker)
  }

  /** The worker has processed the job with this outcome and holds it in state `i`. */
  ghost predicate ProcessedBefore(trace: seq<State>, steps: seq<Step>, i: nat, worker: nat, job: nat, outcome: Outcome)
    requires i < |trace| && i <= |steps|
  {
    exists a :: 0 <= a < i && ProcessedAt(trace, steps, a, worker, job, outcome) && KeepsLock(steps, a, i, worker)
  }

  /** An open transaction has an outcome's status exactly when its worker processed the job with that
      outcome and has held on since. */
  lemma {:induction false} HeldExactlyWhen(
    trace: seq<State>, steps: seq<Step>, i: nat, worker: nat, job: nat, outcome: Outcome)
    requires IsRun(trace, steps) && trace[0] == EMPTY && i < |trace|
    ensures worker in trace[i].held && trace[i].held[worker] == Txn(job, LocalStatus(outcome), true) <==>
            ProcessedBefore(trace, steps, i, worker, job, outcome)
    decreases i
  {
    if i > 0 {
      var k, txn := i - 1, Txn(job, LocalStatus(outcome), true);
      HeldExactlyWhen(trace, steps, k, worker, job, outcome);
      assert Enabled(trace[k], steps[k]) && trace[i] == Apply(trace[k], steps[k]);
      if ProcessedBefore(trace, steps, i, worker, job, outcome) {
        var a :| 0 <= a < i && ProcessedAt(trace, steps, a, worker, job, outcome) && KeepsLock(steps, a, i, worker);
        if a < k {
          assert KeepsLock(steps, a, k, worker) && !Releases(steps[k], worker);
        }
      }
      if worker in trace[i].held && trace[i].held[worker] == txn {
        if worker in trace[k].held && trace[k].held[worker] == txn {
          var a :| 0 <= a < k && ProcessedAt(trace, steps, a, worker, job, outcome) && KeepsLock(steps, a, k, worker);
          assert KeepsLock(steps, a, i, worker);
        } else {
          assert ProcessedAt(trace, steps, k, worker, job, outcome) && KeepsLock(steps, k, i, worker);
        }
      }
    }
  }

  /** An open transaction is processed and still says running exactly when processing raised
      without recording it, and the worker has held on since. */
  lemma RaisedExactlyWhen(trace: seq<State>, steps: seq<Step>, i: nat, worker: nat, job: nat)
    requires IsRun(trace, steps) && trace[0] == EMPTY && i < |trace|
    ensures worker in trace[i].held && trace[i].held[worker] == Txn(job, Running, true) <==>
            ProcessedBefore(trace, steps, i, worker, job, RaisesUnrecorded)
  {
    HeldExactlyWhen(trace, steps, i, worker, job, RaisesUnrecorded);
  }

  /** Step `a` processes the job with this outcome, and its worker, without a crash or another
      commit between, commits at step `b`. */
  predicate CommitsAfter(
    trace: seq<State>, steps: seq<Step>, a: nat, b: nat, worker: nat, job: nat, outcome: Outcome)
    requires |trace| == |steps| + 1
  {
    && a < b < |steps| && ProcessedAt(trace, steps, a, worker, job, outcome) && KeepsLock(steps, a, b, worker)
    && steps[b] == Commit(worker)
  }

  /** Some worker processed the job with this outcome, and committed it, before state `k`. */
  ghost predicate SettledWith(trace: seq<State>, steps: seq<Step>, k: nat, job: nat, outcome: Outcome)
    requires |trace| == |steps| + 1 && k < |trace|
  {
    exists a, b, worker :: 0 <= a < b < k && CommitsAfter(trace, steps, a, b, worker, job, outcome)
  }

  /** A job is committed as completed exactly when some worker processed it with success and then
      committed, without a crash or another commit between. */
  lemma CompletedExactlyWhen(trace: seq<State>, steps: seq<Step>, k: nat, job: nat)
    requires IsRun(trace, steps) && trace[0] == EMPTY && k < |trace|
    ensures job in trace[k].jobs && trace[k].jobs[job].status == Completed <==>
            SettledWith(trace, steps, k, job, Succeeds)
  {
    CommittedExactlyWhen(trace, steps, k, job, Succeeds);
  }

  /** A job is committed as failed exactly when some worker's processing recorded a failure and the
      worker then committed. */
  lemma FailedExactlyWhen(trace: seq<State>, steps: seq<Step>, k: nat, job: nat)
    requires IsRun(trace, steps) && trace[0] == EMPTY && k < |trace|
    ensures job in trace[k].jobs && trace[k].jobs[job].status == Failed <==>
            SettledWith(trace, steps, k, job, FailsRecorded)
  {
    CommittedExactlyWhen(trace, steps, k, job, FailsRecorded);
  }

  /** Step `c` does not claim the job, and leaves its row as it was in state `k`. */
  predicate LeavesAlone(trace: seq<State>, steps: seq<Step>, k: nat, c: nat, job: nat)
    requires |trace| == |steps| + 1 && k <= c < |steps|
  {
    && !(steps[c].Claim? && steps[c].job == job)
    && job in trace[k].jobs && job in trace[c + 1].jobs && trace[c + 1].jobs[job] == trace[k].jobs[job]
  }

  /** A job is committed as running exactly when processing it raised without recording the
      failure and its worker went on to commit; and then nobody ever claims it again. */
  lemma StuckExactlyAfterUnrecordedRaise(trace: seq<State>, steps: seq<Step>, k: nat, job: nat)
    requires IsRun(trace, steps) && trace[0] == EMPTY && k < |trace|
    ensures job in trace[k].jobs && trace[k].jobs[job].status == Running <==>
            SettledWith(trace, steps, k, job, RaisesUnrecorded)
    ensures job in trace[k].jobs && trace[k].jobs[job].status == Running ==>
            forall c :: k <= c < |steps| ==> LeavesAlone(trace, steps, k, c, job)
  {
    CommittedExactlyWhen(trace, steps, k, job, RaisesUnrecorded);
    if job in trace[k].jobs && trace[k].jobs[job].status.Running? {
      forall c | k <= c < |steps| ensures LeavesAlone(trace, steps, k, c, job) {
        SettledJobIsNeverClaimed(trace, steps, k, c, job);
      }
    }
  }

  lemma CommittedExactlyWhen(trace: seq<State>, steps: seq<Step>, k: nat, job: nat, outcome: Outcome)
    requires IsRun(trace, steps) && trace[0] == EMPTY && k < |trace|
    ensures job in trace[k].jobs && trace[k].jobs[job].status == LocalStatus(outcome) <==>
            SettledWith(trace, steps, k, job, outcome)
  {
    if job in trace[k].jobs && trace[k].jobs[job].status == LocalStatus(outcome) {
      var b, worker := CommittedBy(trace, steps, k, job, LocalStatus(outcome));
      HeldExactlyWhen(trace, steps, b, worker, job, outcome);
      var a :| 0 <= a < b && ProcessedAt(trace, steps, a, worker, job, outcome) && KeepsLock(steps, a, b, worker);
      assert CommitsAfter(trace, steps, a, b, worker, job, outcome);
    }
    if SettledWith(trace, steps, k, job, outcome) {
      var a, b, worker :| 0 <= a < b < k && CommitsAfter(trace, steps, a, b, worker, job, outcome);
      StaysSettled(trace, steps, a, b, worker, k, job, outcome);
    }
  }

  /** Only the commit of a processed transaction publishes its status. */
  lemma {:induction false} CommittedBy(trace: seq<State>, steps: seq<Step>, k: nat, job: nat, status: Status)
    returns (b: nat, worker: nat)
    requires IsRun(trace, steps) && trace[0] == EMPTY && k < |trace|
    requires job in trace[k].jobs && trace[k].jobs[job].status == status && !status.Queued?
    ensures b < k && steps[b] == Commit(worker) && worker in trace[b].held && trace[b].held[worker] == Txn(job, status, true)
    decreases k
  {
    var i := k - 1;
    assert Enabled(trace[i], steps[i]) && trace[k] == Apply(trace[i], steps[i]);
    if job in trace[i].jobs && trace[i].jobs[job].status == status {
      b, worker := CommittedBy(trace, steps, i, job, status);
    } else {
      b, worker := i, steps[i].worker;
    }
  }

  lemma StaysSettled(
    trace: seq<State>, steps: seq<Step>, a: nat, b: nat, worker: nat, k: nat, job: nat, outcome: Outcome)
    requires IsRun(trace, steps) && trace[0] == EMPTY && b < k < |trace|
    requires CommitsAfter(trace, steps, a, b, worker, job, outcome)
    ensures job in trace[k].jobs && trace[k].jobs[job].status == LocalStatus(outcome)
  {
    assert ProcessedBefore(trace, steps, b, worker, job, outcome);
    HeldExactlyWhen(trace, steps, b, worker, job, outcome);
    assert Enabled(trace[b], steps[b]) && trace[b + 1] == Apply(trace[b], steps[b]);
    RunKeepsInv(trace, steps, b);
    JobsStay(trace, steps, b + 1, k, job);
  }

  /** A shortest run that leaves a job behind. */
  lemma RaiseLeavesJobRunning() returns (trace: seq<State>, steps: seq<Step>)
    ensures IsRun(trace, steps) && trace[0] == EMPTY
    ensures trace[|steps|] == State(map[7 := Job(0, Running)], map[])
  {
    steps := [Enqueue(7, 0), Claim(1, 7), Process(1, RaisesUnrecorded), Commit(1)];
    var queued := map[7 := Job(0, Queued)];
    trace := [EMPTY, State(queued, map[]), State(queued, map[1 := Txn(7, Running, false)]),
              State(queued, map[1 := Txn(7, Running, true)]), State(map[7 := Job(0, Running)], map[])];
  }

  // ---------------------------------------------------------------------------------------
  // Waiting

  /** Free jobs that a claim may prefer to `job`. */
  ghost function Ahead(s: State, job: nat): set<nat>
    requires job in s.jobs
  {
    set i | i in s.jobs && i != job && Available(s, i) && s.jobs[i].createdAt <= s.jobs[job].createdAt
  }

  /** Steps that can put a job ahead of one created at `at`: a crash, or a late commit of an
      older job's insertion. */
  predicate Setback(step: Step, at: int) {
    step.Crash? || (step.Enqueue? && step.createdAt <= at)
  }

  function Claims(steps: seq<Step>): nat {
    if steps == [] then 0 else Claims(steps[..|steps| - 1]) + if steps[|steps| - 1].Claim? then 1 else 0
  }

  function Setbacks(steps: seq<Step>, at: int): nat {
    if steps == [] then 0 else Setbacks(steps[..|steps| - 1], at) + if Setback(steps[|steps| - 1], at) then 1 else 0
  }

  lemma {:induction false} SmallerSet(a: set<nat>, b: set<nat>)
    requires a <= b
    ensures |a| <= |b|
  {
    assert b == a + (b - a);
  }

  /** Claiming and processing release no lock. */
  lemma LocksKept(s: State, step: Step, x: nat)
    requires Enabled(s, step) && (step.Claim? || step.Process?) && Locked(s, x)
    ensures Locked(Apply(s, step), x)
  {
    var v :| v in s.held && s.held[v].job == x;
    assert Apply(s, step).held[v].job == x;
  }

  /** Committing and crashing release at most the worker's own lock. */
  lemma OtherLocksKept(s: State, step: Step, x: nat)
    requires Enabled(s, step) && (step.Commit? || step.Crash?) && Locked(s, x)
    ensures Locked(Apply(s, step), x) || (step.worker in s.held && s.held[step.worker].job == x)
  {
    var v :| v in s.held && s.held[v].job == x;
    assert v != step.worker ==> v in Apply(s, step).held && Apply(s, step).held[v].job == x;
  }

  /** Every claim that passes `job` over takes a job from ahead of it. */
  lemma ClaimTakesOneAhead(s: State, step: Step, job: nat)
    requires Inv(s) && Enabled(s, step) && Available(s, job) && step.Claim? && step.job != job
    ensures Available(Apply(s, step), job)
    ensures |Ahead(Apply(s, step), job)| + 1 <= |Ahead(s, job)|
  {
    var s', i := Apply(s, step), step.job;
    assert i in Ahead(s, job);
    assert Locked(s', i) by { assert s'.held[step.worker].job == i; }
    forall x | x in Ahead(s', job) ensures x in Ahead(s, job) - {i} {
      if Locked(s, x) {
        LocksKept(s, step, x);
      }
    }
    SmallerSet(Ahead(s', job), Ahead(s, job) - {i});
  }

  lemma ReleaseAddsAtMostOne(s: State, step: Step, job: nat)
    requires Inv(s) && Enabled(s, step) && Available(s, job) && (step.Commit? || step.Crash?)
    ensures Available(Apply(s, step), job)
    ensures |Ahead(Apply(s, step), job)| <= |Ahead(s, job)| + if step.Crash? then 1 else 0
  {
    var s' := Apply(s, step);
    var back := if step.Crash? && step.worker in s.held then {s.held[step.worker].job} else {};
    forall x | x in Ahead(s', job) ensures x in Ahead(s, job) + back {
      if Locked(s, x) {
        OtherLocksKept(s, step, x);
      }
    }
    SmallerSet(Ahead(s', job), Ahead(s, job) + back);
  }

  lemma EnqueueAddsAtMostOne(s: State, step: Step, job: nat)
    requires Inv(s) && Enabled(s, step) && Available(s, job) && step.Enqueue?
    ensures Available(Apply(s, step), job)
    ensures |Ahead(Apply(s, step), job)| <= |Ahead(s, job)| + if step.createdAt <= s.jobs[job].createdAt then 1 else 0
  {
    var late := if step.createdAt <= s.jobs[job].createdAt then {step.job} else {};
    SmallerSet(Ahead(Apply(s, step), job), Ahead(s, job) + late);
  }

  lemma ProcessingAddsNone(s: State, step: Step, job: nat)
    requires Inv(s) && Enabled(s, step) && Available(s, job) && step.Process?
    ensures Available(Apply(s, step), job)
    ensures |Ahead(Apply(s, step), job)| <= |Ahead(s, job)|
  {
    var s' := Apply(s, step);
    forall x | x in Ahead(s', job) ensures x in Ahead(s, job) {
      if Locked(s, x) {
        LocksKept(s, step, x);
      }
    }
    SmallerSet(Ahead(s', job), Ahead(s, job));
  }

  /** How one step changes the jobs ahead of a free job that it does not claim. */
  lemma StepAhead(s: State, step: Step, job: nat)
    requires Inv(s) && Enabled(s, step) && Available(s, job)
    requires !(step.Claim? && step.job == job)
    ensures Available(Apply(s, step), job) && !step.FindNothing?
    ensures |Ahead(Apply(s, step), job)| + (if step.Claim? then 1 else 0)
         <= |Ahead(s, job)| + (if Setback(step, s.jobs[job].createdAt) then 1 else 0)
  {
    match step {
      case Enqueue(_, _) => EnqueueAddsAtMostOne(s, step, job);
      case Claim(_, _) => ClaimTakesOneAhead(s, step, job);
      case FindNothing(_) =>
      case Process(_, _) => ProcessingAddsNone(s, step, job);
      case _ => ReleaseAddsAtMostOne(s, step, job);
    }
  }

  /** A free job with `k` jobs ahead is claimed within `k + 1` claims, plus one for every
      setback: any stretch of a run that does not claim it has at most `k` plus setbacks claims,
      and no worker finds the queue empty meanwhile. */
  lemma {:induction false} BoundedWait(trace: seq<State>, steps: seq<Step>, job: nat)
    requires IsRun(trace, steps) && Inv(trace[0]) && Available(trace[0], job)
    requires forall i :: 0 <= i < |steps| ==> !(steps[i].Claim? && steps[i].job == job)
    ensures Available(trace[|steps|], job)
    ensures trace[|steps|].jobs[job].createdAt == trace[0].jobs[job].createdAt
    ensures |Ahead(trace[|steps|], job)| + Claims(steps)   // so Claims(steps) alone is within the bound
         <= |Ahead(trace[0], job)| + Setbacks(steps, trace[0].jobs[job].createdAt)
    ensures forall i :: 0 <= i < |steps| ==> !steps[i].FindNothing?
    decreases |steps|
  {
    if steps != [] {
      var n := |steps| - 1;
      BoundedWait(trace[..|steps|], steps[..n], job);
      RunKeepsInv(trace, steps, n);
      assert Enabled(trace[n], steps[n]) && trace[n + 1] == Apply(trace[n], steps[n]);
      StepAhead(trace[n], steps[n], job);
      JobsStay(trace, steps, 0, n + 1, job);
    }
  }

  // ---------------------------------------------------------------------------------------
  // The repository's operations

  class JobStore {
    var jobs: map<nat, Job>
    var held: map<nat, Txn>

    ghost function View(): State
      reads this
    {
      State(jobs, held)
    }

    constructor ()
      ensures View() == EMPTY && Inv(View())
    {
      jobs, held := map[], map[];
    }

    method Add(job: nat, createdAt: int)
      requires Inv(View()) && job !in jobs
      modifies this
      ensures Enabled(old(View()), Enqueue(job, createdAt)) && View() == Apply(old(View()), Enqueue(job, createdAt))
      ensures jobs == old(jobs)[job := Job(createdAt, Queued)] && held == old(held)
      ensures Inv(View())
    {
      jobs := jobs[job := Job(createdAt, Queued)];
    }

    /** Scans for the oldest queued job that nobody has locked, and locks it. */
    method ClaimNext(worker: nat) returns (claimed: Option<nat>)
      requires Inv(View()) && worker !in held
      modifies this
      ensures var step := if claimed.Some? then Claim(worker, claimed.value) else FindNothing(worker);
              Enabled(old(View()), step) && View() == Apply(old(View()), step)
      ensures jobs == old(jobs)
      ensures held == if claimed.Some? then old(held)[worker := Txn(claimed.value, Running, false)] else old(held)
      ensures Inv(View())
    {
      claimed := None;
      var rest := jobs.Keys;
      while rest != {}
        invariant rest <= jobs.Keys && unchanged(this)
        invariant claimed.Some? ==> Available(View(), claimed.value)
        invariant forall i :: i in jobs && i !in rest && Available(View(), i) ==>
                    claimed.Some? && jobs[claimed.value].createdAt <= jobs[i].createdAt
        decreases rest
      {
        var i :| i in rest;
        rest := rest - {i};
        if jobs[i].status.Queued? && !(exists w | w in held :: held[w].job == i)
           && (claimed.None? || jobs[i].createdAt < jobs[claimed.value].createdAt) {
          claimed := Some(i);
        }
      }
      if claimed.Some? {
        held := held[worker := Txn(claimed.value, Running, false)];
      }
      StepKeepsInv(old(View()), if claimed.Some? then Claim(worker, claimed.value) else FindNothing(worker));
    }

    /** One turn of the worker loop after a successful claim: process, swallow any exception, commit. */
    method ProcessAndCommit(worker: nat, outcome: Outcome)
      requires Inv(View()) && worker in held && !held[worker].processed
      modifies this
      ensures var mid := Apply(old(View()), Process(worker, outcome));
              Enabled(mid, Commit(worker)) && View() == Apply(mid, Commit(worker))
      ensures held == old(held) - {worker}
      ensures jobs == old(jobs)[old(held[worker].job) := old(jobs[held[worker].job]).(status :=
                match outcome case Succeeds => Completed case FailsRecorded => Failed case RaisesUnrecorded => Running)]
      ensures Inv(View())
    {
      var t := held[worker];
      held := held[worker := t.(local := LocalStatus(outcome), processed := true)];
      jobs := jobs[t.job := jobs[t.job].(status := held[worker].local)];
      held := held - {worker};
      StepKeepsInv(old(View()), Process(worker, outcome));
    }
  }
}
