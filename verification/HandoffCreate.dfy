/** Racing creations of the handoff of one session. The table's unique constraint on the
    session makes a second INSERT wait for an uncommitted first one, then do nothing if it
    committed, or proceed if it was rolled back. */
module HandoffCreate {
  import opened Text

  /** `id` is the fresh identifier drawn by the caller that inserted the record. */
  datatype Record = Record(id: nat, org: nat)

  datatype Reply = Existing(record: Record) | Created(record: Record) | ConflictError | Aborted

  datatype Pc = AtLookup | AtInsert | AtReread | AtEvent | AtCommit | Done(reply: Reply)

  datatype Caller = Caller(org: nat, pc: Pc)

  datatype State = State(
    row: Option<Record>,        // the committed record of the session
    inserting: Option<nat>,     // the caller whose INSERT is not committed yet
    callers: map<nat, Caller>,
    events: nat)                // committed CREATED events

  datatype Step = Arrive(id: nat, org: nat) | Advance(id: nat) | Abort(id: nat)

  predicate Blocked(s: State, id: nat)
    requires id in s.callers
  {
    s.callers[id].pc.AtInsert? && s.inserting.Some? && s.inserting.value != id
  }

  predicate Enabled(s: State, step: Step) {
    match step
    case Arrive(id, _) => id !in s.callers && (s.row.Some? ==> s.row.value.id != id)
    case Advance(id) => id in s.callers && !s.callers[id].pc.Done? && !Blocked(s, id)
    case Abort(id) => id in s.callers && !s.callers[id].pc.Done?
  }

  function Goto(s: State, id: nat, pc: Pc): State
    requires id in s.callers
  {
    s.(callers := s.callers[id := s.callers[id].(pc := pc)])
  }

  /** The lookup is by session and organisation. */
  function Visible(s: State, org: nat): Option<Record> {
    if s.row.Some? && s.row.value.org == org then s.row else None
  }

  function Apply(s: State, step: Step): State
    requires Enabled(s, step)
  {
    match step
    case Arrive(id, org) => s.(callers := s.callers[id := Caller(org, AtLookup)])
    case Abort(id) => Goto(s, id, Done(Aborted)).(inserting := if s.inserting == Some(id) then None else s.inserting)
    case Advance(id) =>
      var c := s.callers[id];
      var found := Visible(s, c.org);
      match c.pc
      case AtLookup => Goto(s, id, if found.Some? then Done(Existing(found.value)) else AtInsert)
      case AtInsert => if s.row.Some? then Goto(s, id, AtReread) else Goto(s, id, AtEvent).(inserting := Some(id))
      case AtReread => Goto(s, id, Done(if found.Some? then Existing(found.value) else ConflictError))
      case AtEvent => Goto(s, id, AtCommit)
      case AtCommit =>
        var record := Record(id, c.org);
        Goto(s, id, Done(Created(record))).(row := Some(record), inserting := None, events := s.events + 1)
      case Done(_) => s
  }

  ghost predicate IsRun(trace: seq<State>, steps: seq<Step>) {
    && |trace| == |steps| + 1
    && trace[0] == State(trace[0].row, None, map[], 0)
    && forall i :: 0 <= i < |steps| ==> Enabled(trace[i], steps[i]) && trace[i + 1] == Apply(trace[i], steps[i])
  }

  // ---------------------------------------------------------------------------------------

  predicate CallerOk(s: State, id: nat, c: Caller) {
    && (c.pc.AtEvent? || c.pc.AtCommit? <==> s.inserting == Some(id))
    && (c.pc.AtReread? ==> s.row.Some?)
    && (c.pc.Done? && c.pc.reply.Existing? ==> s.row == Some(c.pc.reply.record) && s.row.value.org == c.org)
    && (c.pc.Done? && c.pc.reply.Created? ==> s.row == Some(c.pc.reply.record) && c.pc.reply.record == Record(id, c.org))
    && (c.pc.Done? && c.pc.reply.ConflictError? ==> s.row.Some? && s.row.value.org != c.org)
  }

  ghost function Creators(s: State): set<nat> {
    set id | id in s.callers && s.callers[id].pc.Done? && s.callers[id].pc.reply.Created?
  }

  ghost predicate Inv(s: State, first: Option<Record>) {
    && (forall id :: id in s.callers ==> CallerOk(s, id, s.callers[id]))
    && (s.inserting.Some? ==> s.row.None? && s.inserting.value in s.callers)
    && (first.Some? ==> s.row == first)
    && Creators(s) == (if s.row.Some? && first.None? then {s.row.value.id} else {})
    && s.events == |Creators(s)|
  }

  lemma StepKeepsInv(s: State, step: Step, first: Option<Record>)
    requires Inv(s, first) && Enabled(s, step)
    ensures Inv(Apply(s, step), first)
    ensures s.row.Some? ==> Apply(s, step).row == s.row
  {
    var s', id := Apply(s, step), step.id;
    assert id in s.callers ==> CallerOk(s, id, s.callers[id]);
    forall i | i in s'.callers ensures CallerOk(s', i, s'.callers[i]) {
      assert i in s.callers ==> CallerOk(s, i, s.callers[i]);
    }
    assert Creators(s') - {id} == Creators(s) - {id};
    if s'.row != s.row {
      assert Creators(s') == {id};
    } else {
      assert Creators(s') == Creators(s);
    }
  }

  lemma {:induction false} RunKeepsInv(trace: seq<State>, steps: seq<Step>, i: nat)
    requires IsRun(trace, steps) && i < |trace|
    ensures Inv(trace[i], trace[0].row)
  {
    if i == 0 {
      assert Creators(trace[0]) == {};
    } else {
      RunKeepsInv(trace, steps, i - 1);
      StepKeepsInv(trace[i - 1], steps[i - 1], trace[0].row);
    }
  }

  /** `create_handoff` has answered "created": its caller has committed, or is about to. */
  predicate ToldCreated(c: Caller) { c.pc.AtCommit? || (c.pc.Done? && c.pc.reply.Created?) }

  ghost function Told(s: State): set<nat> { set id | id in s.callers && ToldCreated(s.callers[id]) }

  /** It has answered at all, and the answer still stands. */
  predicate Answered(c: Caller) { c.pc.AtCommit? || (c.pc.Done? && !c.pc.reply.Aborted?) }

  /** For every interleaving: the committed CREATED events and the committed creators are one
      exactly when the record exists and none before, nobody but the creator stands told
      `created`, and every caller that returned a record returned this one. */
  lemma OneCreation(trace: seq<State>, steps: seq<Step>, i: nat)
    requires IsRun(trace, steps) && trace[0].row.None? && i < |trace|
    ensures var s := trace[i];
            && s.events == |Creators(s)| == (if s.row.Some? then 1 else 0)
            && Told(s) <= (if s.row.Some? then {s.row.value.id} else if s.inserting.Some? then {s.inserting.value} else {})
            && (s.row.Some? ==> Told(s) == Creators(s) == {s.row.value.id})
            && (forall id :: id in s.callers && s.callers[id].pc.Done? ==>
                  var reply := s.callers[id].pc.reply;
                  reply.Existing? || reply.Created? ==> s.row == Some(reply.record))
  {
    RunKeepsInv(trace, steps, i);
    var s := trace[i];
    forall id | id in s.callers ensures CallerOk(s, id, s.callers[id]) {
    }
    assert Creators(s) <= Told(s);
  }

  /** Once some caller was answered, exactly one caller stands told that it created the record. */
  lemma SomeReturnMeansOneCreator(trace: seq<State>, steps: seq<Step>, i: nat, id: nat)
    requires IsRun(trace, steps) && trace[0].row.None? && i < |trace|
    requires id in trace[i].callers && Answered(trace[i].callers[id])
    ensures |Told(trace[i])| == 1
    ensures trace[i].callers[id].pc.Done? ==> Told(trace[i]) == Creators(trace[i]) && trace[i].events == 1
  {
    RunKeepsInv(trace, steps, i);
    OneCreation(trace, steps, i);
    assert CallerOk(trace[i], id, trace[i].callers[id]);
    if trace[i].callers[id].pc.AtCommit? {
      assert Told(trace[i]) == {id};
    }
  }

  /** A caller told `created` stands so exactly until its transaction is rolled back. */
  lemma {:induction false} ToldUntilRollback(trace: seq<State>, steps: seq<Step>, j: nat, k: nat, id: nat)
    requires IsRun(trace, steps) && j <= k < |trace| && id in Told(trace[j])
    ensures id in Told(trace[k]) <==> forall m :: j <= m < k ==> steps[m] != Abort(id)
    ensures id in trace[k].callers && (id in Told(trace[k]) || trace[k].callers[id].pc == Done(Aborted))
    decreases k
  {
    if j < k {
      ToldUntilRollback(trace, steps, j, k - 1, id);
      assert Enabled(trace[k - 1], steps[k - 1]) && trace[k] == Apply(trace[k - 1], steps[k - 1]);
    }
  }

  /** So two callers are told `created` only when the first one was rolled back in between. */
  lemma ToldTwiceMeansRollback(trace: seq<State>, steps: seq<Step>, j: nat, k: nat, id: nat, other: nat)
    requires IsRun(trace, steps) && trace[0].row.None? && j <= k < |trace|
    requires id in Told(trace[j]) && other in Told(trace[k]) && id != other
    ensures exists m :: j <= m < k && steps[m] == Abort(id)
  {
    ToldUntilRollback(trace, steps, j, k, id);
    OneCreation(trace, steps, k);
  }

  /** In every state of every run, for every caller that is done and was not cut off: the record
      exists, and the reply is "conflict without existing row" exactly when the record belongs to
      another organisation than the caller. */
  lemma ConflictErrorExactlyAcrossOrgs(trace: seq<State>, steps: seq<Step>, i: nat, id: nat)
    requires IsRun(trace, steps) && i < |trace|
    requires id in trace[i].callers && trace[i].callers[id].pc.Done? && !trace[i].callers[id].pc.reply.Aborted?
    ensures trace[i].row.Some?
    ensures trace[i].callers[id].pc == Done(ConflictError) <==> trace[i].row.value.org != trace[i].callers[id].org
  {
    RunKeepsInv(trace, steps, i);
    assert CallerOk(trace[i], id, trace[i].callers[id]);
  }

  lemma {:induction false} RecordOrgIsACallers(trace: seq<State>, steps: seq<Step>, i: nat, org: nat)
    requires IsRun(trace, steps) && i < |trace| && (trace[0].row.Some? ==> trace[0].row.value.org == org)
    requires forall k :: 0 <= k < |steps| && steps[k].Arrive? ==> steps[k].org == org
    ensures trace[i].row.Some? ==> trace[i].row.value.org == org
    ensures forall id :: id in trace[i].callers ==> trace[i].callers[id].org == org
  {
    if i > 0 {
      RecordOrgIsACallers(trace, steps, i - 1, org);
      assert Enabled(trace[i - 1], steps[i - 1]);
    }
  }

  lemma OwnOrgNeverConflicts(trace: seq<State>, steps: seq<Step>, i: nat, org: nat, id: nat)
    requires IsRun(trace, steps) && i < |trace| && (trace[0].row.Some? ==> trace[0].row.value.org == org)
    requires forall k :: 0 <= k < |steps| && steps[k].Arrive? ==> steps[k].org == org
    requires id in trace[i].callers
    ensures trace[i].callers[id].pc != Done(ConflictError)
  {
    RecordOrgIsACallers(trace, steps, i, org);
    RunKeepsInv(trace, steps, i);
    assert CallerOk(trace[i], id, trace[i].callers[id]);
  }

  lemma Extended(trace: seq<State>, steps: seq<Step>, step: Step, next: State) returns (trace': seq<State>, steps': seq<Step>)
    requires IsRun(trace, steps) && Enabled(trace[|steps|], step) && next == Apply(trace[|steps|], step)
    ensures IsRun(trace', steps') && |steps'| == |steps| + 1 && trace'[..|trace|] == trace && trace'[|steps'|] == next
  {
    trace', steps' := trace + [next], steps + [step];
  }

  /** One organisation creates the record while a caller of another one stands between its
      lookup and its insert. */
  function Raced(created: bool): State {
    var record := Record(0, 7);
    if created
    then State(Some(record), None, map[0 := Caller(7, Done(Created(record))), 1 := Caller(8, AtInsert)], 1)
    else State(None, None, map[0 := Caller(7, AtInsert), 1 := Caller(8, AtInsert)], 0)
  }

  lemma BothPassTheLookup() returns (trace: seq<State>, steps: seq<Step>)
    ensures IsRun(trace, steps) && trace[0].row.None? && trace[|steps|] == Raced(false)
  {
    trace, steps := [State(None, None, map[], 0)], [];
    trace, steps := Extended(trace, steps, Arrive(0, 7), State(None, None, map[0 := Caller(7, AtLookup)], 0));
    trace, steps := Extended(trace, steps, Arrive(1, 8), State(None, None, map[0 := Caller(7, AtLookup), 1 := Caller(8, AtLookup)], 0));
    trace, steps := Extended(trace, steps, Advance(1), State(None, None, map[0 := Caller(7, AtLookup), 1 := Caller(8, AtInsert)], 0));
    trace, steps := Extended(trace, steps, Advance(0), Raced(false));
  }

  lemma FirstIsTold() returns (trace: seq<State>, steps: seq<Step>)
    ensures IsRun(trace, steps) && trace[0].row.None?
    ensures trace[|steps|] == State(None, Some(0), map[0 := Caller(7, AtCommit), 1 := Caller(8, AtInsert)], 0)
  {
    trace, steps := BothPassTheLookup();
    var late := Caller(8, AtInsert);
    trace, steps := Extended(trace, steps, Advance(0), State(None, Some(0), map[0 := Caller(7, AtEvent), 1 := late], 0));
    trace, steps := Extended(trace, steps, Advance(0), State(None, Some(0), map[0 := Caller(7, AtCommit), 1 := late], 0));
  }

  lemma OneCreates() returns (trace: seq<State>, steps: seq<Step>)
    ensures IsRun(trace, steps) && trace[0].row.None? && trace[|steps|] == Raced(true)
  {
    trace, steps := FirstIsTold();
    trace, steps := Extended(trace, steps, Advance(0), Raced(true));
  }

  /** Two organisations racing for one session do reach the error. */
  lemma ForeignOrgConflicts() returns (trace: seq<State>, steps: seq<Step>)
    ensures IsRun(trace, steps) && trace[0].row.None?
    ensures 1 in trace[|steps|].callers && trace[|steps|].callers[1].pc == Done(ConflictError)
  {
    trace, steps := OneCreates();
    trace, steps := Extended(trace, steps, Advance(1), Goto(Raced(true), 1, AtReread));
    trace, steps := Extended(trace, steps, Advance(1), Goto(Raced(true), 1, Done(ConflictError)));
  }

  /** A caller told `created` is rolled back, and the next one is told so too. */
  lemma RolledBackCreatorWasTold() returns (trace: seq<State>, steps: seq<Step>, j: nat)
    ensures IsRun(trace, steps) && trace[0].row.None? && j < |steps|
    ensures 0 in Told(trace[j]) && 1 in Told(trace[|steps|])
  {
    trace, steps := FirstIsTold();
    var late := Caller(8, AtInsert);
    j := |steps|;
    var gone := Caller(7, Done(Aborted));
    trace, steps := Extended(trace, steps, Abort(0), State(None, None, map[0 := gone, 1 := late], 0));
    trace, steps := Extended(trace, steps, Advance(1), State(None, Some(1), map[0 := gone, 1 := Caller(8, AtEvent)], 0));
    trace, steps := Extended(trace, steps, Advance(1), State(None, Some(1), map[0 := gone, 1 := Caller(8, AtCommit)], 0));
  }
}
