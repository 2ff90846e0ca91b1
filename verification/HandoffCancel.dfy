/** Racing cancellations of one handoff record. Every database statement is one atomic step;
    an UPDATE that matches the committed row takes its lock, keeps its change private until
    commit, and makes other matching UPDATEs wait. A caller may abort at any point. */
module HandoffCancel {
  import opened Text

  datatype Status = Pending | Assigned | Active | Completed | Cancelled

  predicate Terminal(s: Status) { s.Completed? || s.Cancelled? }

  const CANCELABLE: set<Status> := {Pending, Assigned, Active}

  /** Accepting and completing are compare-and-set updates too. */
  datatype Kind = Cancel | Update(allowed: set<Status>, to: Status)

  datatype Reply =
    | NotFound                  // 404
    | Duplicate                 // already cancelled, suppressed
    | Conflict(status: Status)  // 409
    | CancelledNow              // 200, event recorded
    | Updated | NotUpdated
    | Aborted(counted: bool)

  datatype Pc = AtRead | AtCas | AtReread | AtEvent | AtCount | AtCommit | Done(reply: Reply)

  datatype Caller = Caller(kind: Kind, pc: Pc)

  datatype State = State(
    row: Option<Status>,        // committed status of the record, if there is one
    lock: Option<nat>,          // the caller whose uncommitted UPDATE holds the row
    callers: map<nat, Caller>,
    events: nat,                // committed CANCELLED events
    counter: nat)               // handoff_completed_total{status=cancelled}

  datatype Step = Arrive(id: nat, kind: Kind) | Advance(id: nat) | Abort(id: nat)

  function Allowed(k: Kind): set<Status> { match k case Cancel => CANCELABLE case Update(a, _) => a }

  function Target(k: Kind): Status { match k case Cancel => Cancelled case Update(_, to) => to }

  /** The updates that share the record: none starts from a terminal status, and only
      cancellation leads to CANCELLED. */
  predicate WellBehaved(k: Kind) {
    k.Update? ==> Completed !in k.allowed && Cancelled !in k.allowed && !k.to.Cancelled?
  }

  predicate Blocked(s: State, id: nat)
    requires id in s.callers
  {
    && s.callers[id].pc.AtCas? && s.lock.Some? && s.lock.value != id
    && s.row.Some? && s.row.value in Allowed(s.callers[id].kind)
  }

  predicate Enabled(s: State, step: Step) {
    match step
    case Arrive(id, kind) => id !in s.callers && WellBehaved(kind)
    case Advance(id) => id in s.callers && !s.callers[id].pc.Done? && !Blocked(s, id)
    case Abort(id) => id in s.callers && !s.callers[id].pc.Done?
  }

  function Goto(s: State, id: nat, pc: Pc): State
    requires id in s.callers
  {
    s.(callers := s.callers[id := s.callers[id].(pc := pc)])
  }

  function AnswerFrom(row: Option<Status>, otherwise: Pc): Pc {
    if row.None? then Done(NotFound)
    else if row.value.Cancelled? then Done(Duplicate)
    else if row.value.Completed? then Done(Conflict(Completed))
    else otherwise
  }

  function Apply(s: State, step: Step): State
    requires Enabled(s, step)
  {
    match step
    case Arrive(id, kind) => s.(callers := s.callers[id := Caller(kind, if kind.Cancel? then AtRead else AtCas)])
    case Abort(id) =>
      var c := s.callers[id];
      Goto(s, id, Done(Aborted(c.kind.Cancel? && c.pc.AtCommit?))).(lock := if s.lock == Some(id) then None else s.lock)
    case Advance(id) =>
      var c := s.callers[id];
      match c.pc
      case AtRead => Goto(s, id, AnswerFrom(s.row, AtCas))
      case AtCas =>
        if s.row.Some? && s.row.value in Allowed(c.kind)
        then Goto(s, id, if c.kind.Cancel? then AtEvent else AtCommit).(lock := Some(id))
        else Goto(s, id, if c.kind.Cancel? then AtReread else Done(NotUpdated))
      case AtReread => Goto(s, id, AnswerFrom(s.row, if s.row.Some? then Done(Conflict(s.row.value)) else Done(NotFound)))
      case AtEvent => Goto(s, id, AtCount)
      case AtCount => Goto(s, id, AtCommit).(counter := s.counter + 1)
      case AtCommit =>
        Goto(s, id, Done(if c.kind.Cancel? then CancelledNow else Updated)).(
        row := Some(Target(c.kind)), lock := None, events := s.events + if c.kind.Cancel? then 1 else 0)
      case Done(_) => s
  }

  ghost predicate IsRun(trace: seq<State>, steps: seq<Step>) {
    && |trace| == |steps| + 1
    && trace[0] == State(trace[0].row, None, map[], 0, 0)
    && forall i :: 0 <= i < |steps| ==> Enabled(trace[i], steps[i]) && trace[i + 1] == Apply(trace[i], steps[i])
  }

  // ---------------------------------------------------------------------------------------

  predicate Writing(c: Caller) { c.pc.AtEvent? || c.pc.AtCount? || c.pc.AtCommit? }

  predicate Won(c: Caller) { c.pc == Done(CancelledNow) }

  /** Callers that passed the counter. */
  predicate Counted(c: Caller) {
    Won(c) || c.pc == Done(Aborted(true)) || (c.kind.Cancel? && c.pc.AtCommit?)
  }

  ghost function Winners(s: State): set<nat> { set id | id in s.callers && Won(s.callers[id]) }

  ghost function Counters(s: State): set<nat> { set id | id in s.callers && Counted(s.callers[id]) }

  /** What holds of one caller, whatever the others do. */
  predicate CallerOk(s: State, id: nat, c: Caller) {
    && WellBehaved(c.kind)
    && (Writing(c) <==> s.lock == Some(id))
    && (c.kind.Update? ==> c.pc.AtCas? || c.pc.AtCommit? || c.pc.Done?)
    && (c.kind.Cancel? && c.pc.AtCas? ==> s.row.Some?)
    && (c.pc.AtReread? ==> s.row.Some? && Terminal(s.row.value))
    && (Writing(c) ==> s.row.Some? && s.row.value in Allowed(c.kind))
    && (c.pc.Done? ==> if c.kind.Cancel? then CancelReply(s.row, c.pc.reply) else UpdateReply(s.row, c.pc.reply))
  }

  /** A finished cancellation was told of the status that the record still has. */
  predicate CancelReply(row: Option<Status>, reply: Reply) {
    match reply
    case NotFound => row.None?
    case Duplicate => row == Some(Cancelled)
    case CancelledNow => row == Some(Cancelled)
    case Conflict(status) => status == Completed && row == Some(Completed)
    case Aborted(_) => true
    case _ => false
  }

  predicate UpdateReply(row: Option<Status>, reply: Reply) {
    (reply.Updated? && row.Some?) || reply.NotUpdated? || reply == Aborted(false)
  }

  ghost predicate CallersOk(s: State) {
    forall id :: id in s.callers ==> CallerOk(s, id, s.callers[id])
  }

  predicate RowOk(s: State, first: Option<Status>) {
    && (s.lock.Some? ==> s.lock.value in s.callers && s.row.Some? && !Terminal(s.row.value))
    && (s.row.None? <==> first.None?)
    && (first.Some? && Terminal(first.value) ==> s.row == first)
    && s.events == (if s.row == Some(Cancelled) && first != Some(Cancelled) then 1 else 0)
  }

  ghost predicate Inv(s: State, first: Option<Status>) {
    CallersOk(s) && RowOk(s, first) && |Winners(s)| == s.events && |Counters(s)| == s.counter
  }

  /** Only the stepping caller can enter or leave a set of callers. */
  lemma OneCallerMoves(before: set<nat>, after: set<nat>, id: nat)
    requires before - {id} == after - {id}
    ensures |after| == |before| + (if id in after then 1 else 0) - (if id in before then 1 else 0)
  {
    assert after == (after - {id}) + if id in after then {id} else {};
    assert before == (before - {id}) + if id in before then {id} else {};
  }

  /** A step touches only its own caller. */
  lemma OthersUntouched(s: State, step: Step, x: nat)
    requires Enabled(s, step) && x != step.id
    ensures x in Apply(s, step).callers <==> x in s.callers
    ensures x in s.callers ==> Apply(s, step).callers[x] == s.callers[x]
  {
  }

  /** The event and the counter go up exactly when the stepping caller becomes responsible. */
  lemma StepperAccountsForItself(s: State, step: Step, first: Option<Status>)
    requires Inv(s, first) && Enabled(s, step)
    ensures var s', id := Apply(s, step), step.id;
            && s'.events - s.events == (if id in Winners(s') then 1 else 0) - (if id in Winners(s) then 1 else 0)
            && s'.counter - s.counter == (if id in Counters(s') then 1 else 0) - (if id in Counters(s) then 1 else 0)
  {
    assert step.id in s.callers ==> CallerOk(s, step.id, s.callers[step.id]);
  }

  lemma StepCounts(s: State, step: Step, first: Option<Status>)
    requires Inv(s, first) && Enabled(s, step)
    ensures var s' := Apply(s, step); |Winners(s')| == s'.events && |Counters(s')| == s'.counter
  {
    var s', id := Apply(s, step), step.id;
    StepperAccountsForItself(s, step, first);
    forall x | x != id
      ensures x in Winners(s) <==> x in Winners(s')
      ensures x in Counters(s) <==> x in Counters(s')
    {
      OthersUntouched(s, step, x);
    }
    assert Winners(s) - {id} == Winners(s') - {id};
    assert Counters(s) - {id} == Counters(s') - {id};
    OneCallerMoves(Winners(s), Winners(s'), id);
    OneCallerMoves(Counters(s), Counters(s'), id);
  }

  /** The row after a step: a terminal status stays. */
  lemma StepOnRow(s: State, step: Step, first: Option<Status>)
    requires Inv(s, first) && Enabled(s, step)
    ensures RowOk(Apply(s, step), first)
    ensures s.row.Some? && Terminal(s.row.value) ==> Apply(s, step).row == s.row
    ensures s.row.Some? ==> Apply(s, step).row.Some?
  {
    assert step.id in s.callers ==> CallerOk(s, step.id, s.callers[step.id]);
    if s.lock.Some? {
      assert CallerOk(s, s.lock.value, s.callers[s.lock.value]);
    }
  }

  /** A caller that does not step keeps what holds of it. */
  lemma BystanderStaysOk(s: State, step: Step, first: Option<Status>, id: nat)
    requires Inv(s, first) && Enabled(s, step) && id in s.callers && id != step.id
    ensures CallerOk(Apply(s, step), id, s.callers[id])
  {
    assert CallerOk(s, id, s.callers[id]);
    assert step.id in s.callers ==> CallerOk(s, step.id, s.callers[step.id]);
    StepOnRow(s, step, first);
  }

  lemma StepperStaysOk(s: State, step: Step, first: Option<Status>)
    requires Inv(s, first) && Enabled(s, step)
    ensures CallerOk(Apply(s, step), step.id, Apply(s, step).callers[step.id])
  {
    assert step.id in s.callers ==> CallerOk(s, step.id, s.callers[step.id]);
  }

  lemma StepKeepsInv(s: State, step: Step, first: Option<Status>)
    requires Inv(s, first) && Enabled(s, step)
    ensures Inv(Apply(s, step), first)
  {
    StepCounts(s, step, first);
    StepOnRow(s, step, first);
    StepperStaysOk(s, step, first);
    var s' := Apply(s, step);
    forall id | id in s'.callers ensures CallerOk(s', id, s'.callers[id]) {
      if id != step.id {
        BystanderStaysOk(s, step, first, id);
      }
    }
  }

  lemma {:induction false} RunKeepsInv(trace: seq<State>, steps: seq<Step>, i: nat)
    requires IsRun(trace, steps) && i < |trace|
    ensures Inv(trace[i], trace[0].row)
  {
    if i == 0 {
      assert Winners(trace[0]) == {} && Counters(trace[0]) == {};
    } else {
      RunKeepsInv(trace, steps, i - 1);
      StepKeepsInv(trace[i - 1], steps[i - 1], trace[0].row);
    }
  }

  /** COMPLETED and CANCELLED are absorbing in every run. */
  lemma {:induction false} TerminalIsAbsorbing(trace: seq<State>, steps: seq<Step>, i: nat, k: nat)
    requires IsRun(trace, steps) && i <= k < |trace|
    requires trace[i].row.Some? && Terminal(trace[i].row.value)
    ensures trace[k].row == trace[i].row
    decreases k
  {
    if i < k {
      TerminalIsAbsorbing(trace, steps, i, k - 1);
      RunKeepsInv(trace, steps, k - 1);
      StepOnRow(trace[k - 1], steps[k - 1], trace[0].row);
    }
  }

  /** However many callers race, exactly one records the CANCELLED event when the record was
      cancelled during the run, and none otherwise; each bump of the counter is that caller's,
      or one of a caller that aborted, or is about to commit, after it. */
  lemma OneCancellation(trace: seq<State>, steps: seq<Step>, i: nat)
    requires IsRun(trace, steps) && i < |trace|
    ensures var s := trace[i];
            && s.events == |Winners(s)| == (if s.row == Some(Cancelled) && trace[0].row != Some(Cancelled) then 1 else 0)
            && s.counter == |Counters(s)| && Winners(s) <= Counters(s)
            && (s.counter == s.events <==> Counters(s) == Winners(s))
  {
    RunKeepsInv(trace, steps, i);
    var s := trace[i];
    assert Counters(s) == Winners(s) + (Counters(s) - Winners(s));
  }

  /** Step `j` cuts a cancellation off after it bumped the counter and before it committed. */
  predicate CutOff(trace: seq<State>, steps: seq<Step>, j: nat, id: nat)
    requires j < |trace| && j < |steps|
  {
    steps[j] == Abort(id) && id in trace[j].callers && trace[j].callers[id].kind.Cancel? && trace[j].callers[id].pc.AtCommit?
  }

  lemma {:induction false} CutOffExactlyWhen(trace: seq<State>, steps: seq<Step>, i: nat, id: nat)
    requires IsRun(trace, steps) && i < |trace|
    ensures id in trace[i].callers && trace[i].callers[id].pc == Done(Aborted(true)) <==>
            exists j :: 0 <= j < i && CutOff(trace, steps, j, id)
    decreases i
  {
    if i > 0 {
      CutOffExactlyWhen(trace, steps, i - 1, id);
      assert Enabled(trace[i - 1], steps[i - 1]) && trace[i] == Apply(trace[i - 1], steps[i - 1]);
      assert CutOff(trace, steps, i - 1, id) ==> trace[i].callers[id].pc == Done(Aborted(true));
    }
  }

  /** In every state of every run the counter agrees with the recorded events exactly when no
      step so far cut a cancellation off between bumping it and committing, and none stands
      between the two right now. */
  lemma CounterAgreesExactlyWhen(trace: seq<State>, steps: seq<Step>, i: nat)
    requires IsRun(trace, steps) && i < |trace|
    ensures trace[i].counter == trace[i].events <==>
            && (forall j, id :: 0 <= j < i ==> !CutOff(trace, steps, j, id))
            && (forall id :: id in trace[i].callers && trace[i].callers[id].kind.Cancel? ==> !trace[i].callers[id].pc.AtCommit?)
  {
    OneCancellation(trace, steps, i);
    var s := trace[i];
    forall id | id in s.callers
      ensures id in Counters(s) && id !in Winners(s) <==>
              || (s.callers[id].kind.Cancel? && s.callers[id].pc.AtCommit?)
              || exists j :: 0 <= j < i && CutOff(trace, steps, j, id)
    {
      CutOffExactlyWhen(trace, steps, i, id);
    }
    forall j, id | 0 <= j < i && CutOff(trace, steps, j, id) ensures id in Counters(s) && id !in Winners(s) {
      CutOffExactlyWhen(trace, steps, i, id);
    }
  }

  /** The state of a pending record with one cancelling caller. */
  function Lone(pc: Pc, lock: Option<nat>, counter: nat): State {
    State(Some(Pending), lock, map[0 := Caller(Cancel, pc)], 0, counter)
  }

  lemma LoneSteps()
    ensures Apply(Lone(AtRead, None, 0), Advance(0)) == Lone(AtCas, None, 0)
    ensures Apply(Lone(AtCas, None, 0), Advance(0)) == Lone(AtEvent, Some(0), 0)
    ensures Apply(Lone(AtEvent, Some(0), 0), Advance(0)) == Lone(AtCount, Some(0), 0)
    ensures Apply(Lone(AtCount, Some(0), 0), Advance(0)) == Lone(AtCommit, Some(0), 1)
    ensures Apply(Lone(AtCommit, Some(0), 1), Abort(0)) == Lone(Done(Aborted(true)), None, 1)
  {
  }

  /** A cancellation cut off just before its commit: counted, but no event and still pending. */
  lemma AbortLeavesCount() returns (trace: seq<State>, steps: seq<Step>)
    ensures IsRun(trace, steps)
    ensures var s := trace[|steps|]; s.counter == 1 && s.events == 0 && s.row == Some(Pending)
  {
    LoneSteps();
    steps := [Arrive(0, Cancel), Advance(0), Advance(0), Advance(0), Advance(0), Abort(0)];
    trace := [State(Some(Pending), None, map[], 0, 0), Lone(AtRead, None, 0), Lone(AtCas, None, 0),
              Lone(AtEvent, Some(0), 0), Lone(AtCount, Some(0), 0), Lone(AtCommit, Some(0), 1),
              Lone(Done(Aborted(true)), None, 1)];
  }

  /** A caller whose compare-and-set matched nothing re-reads a terminal status, so its reply
      is the suppressed duplicate or a conflict with COMPLETED. */
  lemma LoserSeesTerminal(trace: seq<State>, steps: seq<Step>, i: nat, id: nat)
    requires IsRun(trace, steps) && i < |steps| && steps[i] == Advance(id)
    requires id in trace[i].callers && trace[i].callers[id].pc.AtReread?
    ensures trace[i].row.Some? && Terminal(trace[i].row.value)
    ensures trace[i + 1].callers[id].pc == Done(if trace[i].row.value.Cancelled? then Duplicate else Conflict(Completed))
  {
    RunKeepsInv(trace, steps, i);
    assert CallerOk(trace[i], id, trace[i].callers[id]);
    assert Enabled(trace[i], steps[i]);
  }

  /** In every state of every run, what a finished cancellation was told is what the record says: not found
      exactly when there is none; completed exactly when it is completed; and cancelled now, or before,
      exactly when it is cancelled. */
  lemma RepliesAreTrue(trace: seq<State>, steps: seq<Step>, i: nat, id: nat)
    requires IsRun(trace, steps) && i < |trace| && id in trace[i].callers
    requires var c := trace[i].callers[id]; c.kind.Cancel? && c.pc.Done? && !c.pc.reply.Aborted?
    ensures var row, reply := trace[i].row, trace[i].callers[id].pc.reply;
            && (reply == NotFound <==> row == None)
            && (reply == Conflict(Completed) <==> row == Some(Completed))
            && (reply == Duplicate || reply == CancelledNow <==> row == Some(Cancelled))
            && (row == None || row == Some(Completed) || row == Some(Cancelled))
  {
    RunKeepsInv(trace, steps, i);
    assert CallerOk(trace[i], id, trace[i].callers[id]);
  }

  /** A caller is at its commit, and steps. */
  predicate Commits(s: State, step: Step) {
    step.Advance? && step.id in s.callers && s.callers[step.id].pc.AtCommit?
  }

  /** Only a commit changes the row, from a status that its kind of update may start from to the one that it
      leads to, and then the caller is told so. */
  lemma RowChangesAtCommits(trace: seq<State>, steps: seq<Step>, i: nat)
    requires IsRun(trace, steps) && i < |steps|
    ensures !Commits(trace[i], steps[i]) ==> trace[i + 1].row == trace[i].row
    ensures Commits(trace[i], steps[i]) ==>
              var c, row := trace[i].callers[steps[i].id], trace[i].row;
              var after := trace[i + 1].callers[steps[i].id].pc;
              && row.Some?
              && (c.kind.Cancel? ==> !Terminal(row.value) && trace[i + 1].row == Some(Cancelled) && after == Done(CancelledNow))
              && (c.kind.Update? ==> row.value in c.kind.allowed && trace[i + 1].row == Some(c.kind.to) && after == Done(Updated))
  {
    RunKeepsInv(trace, steps, i);
    assert Enabled(trace[i], steps[i]);
    if steps[i].id in trace[i].callers {
      assert CallerOk(trace[i], steps[i].id, trace[i].callers[steps[i].id]);
    }
  }

  /** An update is told that nothing matched exactly when the committed status is none that it starts from. */
  lemma NotUpdatedExactlyWhen(trace: seq<State>, steps: seq<Step>, i: nat, id: nat)
    requires IsRun(trace, steps) && i < |steps| && steps[i] == Advance(id) && id in trace[i].callers
    requires var c := trace[i].callers[id]; c.kind.Update? && c.pc.AtCas?
    ensures trace[i + 1].callers[id].pc == Done(NotUpdated) <==>
            trace[i].row == None || trace[i].row.value !in trace[i].callers[id].kind.allowed
  {
    assert Enabled(trace[i], steps[i]) && trace[i + 1] == Apply(trace[i], steps[i]);
  }

  /** No deadlock: while some caller is unfinished, some caller can advance. */
  lemma SomeoneCanAdvance(trace: seq<State>, steps: seq<Step>, i: nat, id: nat) returns (mover: nat)
    requires IsRun(trace, steps) && i < |trace|
    requires id in trace[i].callers && !trace[i].callers[id].pc.Done?
    ensures Enabled(trace[i], Advance(mover))
  {
    RunKeepsInv(trace, steps, i);
    assert trace[i].lock.Some? ==> CallerOk(trace[i], trace[i].lock.value, trace[i].callers[trace[i].lock.value]);
    mover := if Blocked(trace[i], id) then trace[i].lock.value else id;
  }
}
