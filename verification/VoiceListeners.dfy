/** Who hears whom on one connection: every start makes a listening task for its session, all tasks
    share the connection's audio queue, and only the newest one is ever cancelled. */
module VoiceListeners {
  import opened Text
  import opened Bytes
  import opened VoiceSocket

  /** A listening task, and whether it still runs. */
  datatype Listener = Listener(session: nat, alive: bool)

  /** `owners` are the sessions that the frames were sent to, in the order sent; `takers` the sessions
      of the tasks that received frames, in the order received. */
  datatype Room = Room(queue: Queue, owners: seq<nat>, listeners: seq<Listener>, takers: seq<nat>)

  const EMPTY_ROOM := Room(EMPTY_QUEUE, [], [], [])

  predicate Alive(r: Room, who: nat) { who < |r.listeners| && r.listeners[who].alive }

  function Stopped(ls: seq<Listener>, who: nat): seq<Listener>
    requires who < |ls|
  {
    ls[who := ls[who].(alive := false)]
  }

  /** Frames count only while a session is held, and so does an end, which cancels the newest task.
      A task that takes the sentinel ends. */
  function StepRoom(r: Room, session: Option<nat>, e: Event): Room {
    match e
    case Audio(f) =>
      if session.None? then r
      else r.(queue := Operate(r.queue, PutFrame(f), MAX_FRAMES), owners := r.owners + [session.value])
    case Listen(who) =>
      if !Alive(r, who) || r.queue.items == [] then r
      else if StartsWithSentinel(r.queue.items)
      then r.(queue := Operate(r.queue, TakeEntry, MAX_FRAMES), listeners := Stopped(r.listeners, who))
      else r.(queue := Operate(r.queue, TakeEntry, MAX_FRAMES), takers := r.takers + [r.listeners[who].session])
    case Control(c) =>
      if c.Start? then r.(listeners := r.listeners + [Listener(c.id, true)])
      else if c.End? && session.Some?
      then r.(queue := Operate(r.queue, EndSignal, MAX_FRAMES),
              listeners := if r.listeners == [] then [] else Stopped(r.listeners, |r.listeners| - 1))
      else r
  }

  function RoomAfter(events: seq<Event>): Room {
    if events == [] then EMPTY_ROOM
    else
      var front := events[..|events| - 1];
      StepRoom(RoomAfter(front), AfterAll(front).session, events[|events| - 1])
  }

  lemma RoomStep(events: seq<Event>, e: Event)
    ensures AfterAll(events + [e]) == Receive(AfterAll(events), e)
    ensures RoomAfter(events + [e]) == StepRoom(RoomAfter(events), AfterAll(events).session, e)
  {
    assert (events + [e])[..|events|] == events;
  }

  /** The queue is one that the queue's operations lead to, and the books are complete. */
  predicate RoomOk(r: Room) {
    QueueOk(r.queue, MAX_FRAMES) && |r.owners| == |r.queue.sent| && |r.takers| == |r.queue.taken| == |r.queue.heard|
  }

  lemma StepKeepsOk(r: Room, session: Option<nat>, e: Event)
    requires RoomOk(r)
    ensures RoomOk(StepRoom(r, session, e))
  {
    match e {
      case Audio(f) => OperateKeepsOk(r.queue, PutFrame(f), MAX_FRAMES);
      case Listen(_) => OperateKeepsOk(r.queue, TakeEntry, MAX_FRAMES);
      case Control(_) => OperateKeepsOk(r.queue, EndSignal, MAX_FRAMES);
    }
  }

  lemma {:induction false} RoomIsOk(events: seq<Event>)
    ensures RoomOk(RoomAfter(events))
  {
    if events != [] {
      var front := events[..|events| - 1];
      RoomIsOk(front);
      StepKeepsOk(RoomAfter(front), AfterAll(front).session, events[|events| - 1]);
    }
  }

  // ---------------------------------------------------------------------------------------
  // What a second start finds

  predicate NoStart(events: seq<Event>) {
    forall i :: 0 <= i < |events| ==> !(events[i].Control? && events[i].control.Start?)
  }

  /** Some task that outlived the end asks for an entry. */
  predicate SomeoneAsks(r: Room, events: seq<Event>) {
    exists i :: 0 <= i < |events| && events[i].Listen? && Alive(r, events[i].who)
  }

  lemma {:induction false} AfterEnd(events: seq<Event>, more: seq<Event>)
    requires AfterAll(events).session.Some? && NoStart(more)
    ensures var ended := events + [Control(End)];
            && AfterAll(ended + more).session.None?
            && RoomAfter(ended + more).queue.items == (if SomeoneAsks(RoomAfter(ended), more) then [] else [None])
            && (!SomeoneAsks(RoomAfter(ended), more) ==> RoomAfter(ended + more) == RoomAfter(ended))
  {
    var ended := events + [Control(End)];
    if more == [] {
      RoomStep(events, Control(End));
      assert ended + more == ended;
    } else {
      var front, e := more[..|more| - 1], more[|more| - 1];
      AfterEnd(events, front);
      assert front + [e] == more;
      Assoc(ended, front, [e]);
      RoomStep(ended + front, e);
      AskedBy(RoomAfter(ended), front, e);
      QuietStep(RoomAfter(ended), RoomAfter(ended + front), SomeoneAsks(RoomAfter(ended), front), e);
    }
  }

  /** Without a session, only a task that is still alive can change the queue, by taking the sentinel. */
  lemma QuietStep(base: Room, r: Room, asked: bool, e: Event)
    requires r.queue.items == (if asked then [] else [None]) && (!asked ==> r == base)
    requires !(e.Control? && e.control.Start?)
    ensures var after := StepRoom(r, None, e);
            var asks := asked || (e.Listen? && Alive(base, e.who));
            after.queue.items == (if asks then [] else [None]) && (!asks ==> after == base)
  {
  }

  lemma AskedBy(r: Room, events: seq<Event>, e: Event)
    ensures SomeoneAsks(r, events + [e]) <==> SomeoneAsks(r, events) || (e.Listen? && Alive(r, e.who))
  {
    var all := events + [e];
    assert forall i :: 0 <= i < |events| ==> all[i] == events[i];
    assert all[|events|] == e;
  }

  /** A session started after the end of another one finds the sentinel in the queue, and the first
      thing its task takes is that sentinel, which ends it -- exactly when no task that an earlier
      start abandoned has taken it in between; then it finds the queue empty. */
  lemma SecondStartFinds(events: seq<Event>, more: seq<Event>, id: nat)
    requires AfterAll(events).session.Some? && NoStart(more)
    ensures var ended := events + [Control(End)];
            var started := ended + more + [Control(Start(id))];
            var r := RoomAfter(started);
            && AfterAll(started).session == Some(id)
            && r.queue.items == (if SomeoneAsks(RoomAfter(ended), more) then [] else [None])
  {
    AfterEnd(events, more);
    RoomStep(events + [Control(End)] + more, Control(Start(id)));
  }

  /** Then its own task ends at its first request, and hears nothing. */
  lemma SentinelEndsTask(events: seq<Event>, id: nat)
    requires RoomAfter(events).queue.items == [None]
    ensures var started := events + [Control(Start(id))];
            var who := |RoomAfter(events).listeners|;
            var r := RoomAfter(started + [Listen(who)]);
            !Alive(r, who) && r.queue.items == [] && r.takers == RoomAfter(events).takers
  {
    var started := events + [Control(Start(id))];
    RoomStep(events, Control(Start(id)));
    RoomStep(started, Listen(|RoomAfter(events).listeners|));
  }

  /** A session that is forgotten instead of ended leaves its frames and its task to the next one. */
  lemma ForgottenSessionStays(events: seq<Event>, c: Control, id: nat)
    requires !c.End? && !c.Start?
    ensures var r := RoomAfter(events);
            RoomAfter(events + [Control(c)] + [Control(Start(id))]) == r.(listeners := r.listeners + [Listener(id, true)])
  {
    RoomStep(events, Control(c));
    RoomStep(events + [Control(c)], Control(Start(id)));
  }

  // ---------------------------------------------------------------------------------------
  // Who hears whom

  /** Every frame that was received was received by a task of the session it was sent to. */
  predicate HeardRight(r: Room) {
    forall i :: 0 <= i < |r.takers| && i < |r.queue.taken| && r.queue.taken[i] < |r.owners| ==> r.takers[i] == r.owners[r.queue.taken[i]]
  }

  /** Position of the last start below `n`, or -1. */
  function LastStart(cs: seq<Control>, n: nat): (i: int)
    requires n <= |cs|
    ensures -1 <= i < n && (i >= 0 ==> cs[i].Start?) && forall k :: i < k < n ==> !cs[k].Start?
    decreases n
  {
    if n == 0 then -1 else if cs[n - 1].Start? then n - 1 else LastStart(cs, n - 1)
  }

  /** The session that the last start made, if there was one. */
  function LastId(cs: seq<Control>): nat {
    var i := LastStart(cs, |cs|);
    if i >= 0 then cs[i].id else 0
  }

  /** An abandoned start, and a later one of another session. */
  predicate Mixes(cs: seq<Control>, i: nat, j: nat) {
    i < j < |cs| && Abandoned(cs, i) && cs[j].Start? && cs[j].id != cs[i].id
  }

  ghost predicate NoMix(cs: seq<Control>) { forall i, j :: !Mixes(cs, i, j) }

  ghost predicate SomeAbandoned(cs: seq<Control>) { exists i :: 0 <= i < |cs| && Abandoned(cs, i) }

  lemma LastIdOf(cs: seq<Control>, c: Control)
    ensures LastId(cs + [c]) == if c.Start? then c.id else LastId(cs)
  {
    var all := cs + [c];
    assert forall k :: 0 <= k < |cs| ==> all[k] == cs[k];
    SameLastStart(cs, all, |cs|);
  }

  lemma {:induction false} SameLastStart(a: seq<Control>, b: seq<Control>, n: nat)
    requires n <= |a| && n <= |b| && forall k :: 0 <= k < n ==> a[k] == b[k]
    ensures LastStart(a, n) == LastStart(b, n)
    decreases n
  {
    if n > 0 {
      SameLastStart(a, b, n - 1);
    }
  }

  /** One more control message. */
  lemma Extended(cs: seq<Control>, c: Control)
    requires NoMix(cs + [c])
    ensures NoMix(cs)
    ensures SomeAbandoned(cs) ==> SomeAbandoned(cs + [c])
    ensures Active(cs) && !c.End? ==> SomeAbandoned(cs + [c])
    ensures c.Start? && SomeAbandoned(cs + [c]) ==> c.id == LastId(cs)
  {
    var all := cs + [c];
    assert forall k :: 0 <= k < |cs| ==> all[k] == cs[k];
    forall i, j ensures !Mixes(cs, i, j) {
      assert Mixes(cs, i, j) ==> Mixes(all, i, j);
    }
    if SomeAbandoned(cs) {
      var i :| 0 <= i < |cs| && Abandoned(cs, i);
      assert Abandoned(all, i);
    }
    if Active(cs) && !c.End? {
      assert Abandoned(all, |cs| - 1);
    }
    if c.Start? && SomeAbandoned(all) {
      var i :| 0 <= i < |all| && Abandoned(all, i);
      assert !Mixes(all, i, |cs|);
      var last := LastStart(cs, |cs|);
      assert !Mixes(all, i, last);
    }
  }

  predicate SomeQueued(r: Room) { r.queue.first < |r.owners| }

  /** Without mixing, whoever may still hear and whatever may still be heard belong to the last
      session started; and something outlives a session only when a start was abandoned. */
  ghost predicate Sorted(r: Room, cs: seq<Control>) {
    && (forall who :: 0 <= who < |r.listeners| && r.listeners[who].alive ==> r.listeners[who].session == LastId(cs))
    && (forall p :: 0 <= p < |r.owners| && r.queue.first <= p ==> r.owners[p] == LastId(cs))
    && (forall who :: 0 <= who < |r.listeners| - 1 && r.listeners[who].alive ==> SomeAbandoned(cs))
    && (r.listeners != [] && r.listeners[|r.listeners| - 1].alive ==> Active(cs) || SomeAbandoned(cs))
    && (SomeQueued(r) ==> Active(cs) || SomeAbandoned(cs))
    && HeardRight(r)
  }

  lemma ControlSorts(r: Room, cs: seq<Control>, session: Option<nat>, c: Control)
    requires RoomOk(r) && Sorted(r, cs) && NoMix(cs + [c])
    requires session.Some? <==> Active(cs)
    ensures Sorted(StepRoom(r, session, Control(c)), cs + [c])
  {
    Extended(cs, c);
    LastIdOf(cs, c);
    assert Active(cs + [c]) <==> c.Start?;
  }

  lemma AudioSorts(r: Room, cs: seq<Control>, session: Option<nat>, f: bytes)
    requires RoomOk(r) && Sorted(r, cs)
    requires session.Some? <==> Active(cs)
    requires session.Some? ==> session.value == LastId(cs)
    ensures Sorted(StepRoom(r, session, Audio(f)), cs)
  {
  }

  lemma ListenSorts(r: Room, cs: seq<Control>, session: Option<nat>, who: nat)
    requires RoomOk(r) && Sorted(r, cs)
    ensures Sorted(StepRoom(r, session, Listen(who)), cs)
  {
  }

  lemma {:induction false} SessionIsLast(events: seq<Event>)
    ensures AfterAll(events).session.Some? <==> Active(Controls(events))
    ensures AfterAll(events).session.Some? ==> AfterAll(events).session.value == LastId(Controls(events))
  {
    GaugeInvariant(events);
    if events != [] {
      var front, e := events[..|events| - 1], events[|events| - 1];
      SessionIsLast(front);
      if e.Control? {
        LastIdOf(Controls(front), e.control);
      } else {
        assert Controls(front) + [] == Controls(front);
      }
    }
  }

  lemma {:induction false} SortedRun(events: seq<Event>)
    requires NoMix(Controls(events))
    ensures Sorted(RoomAfter(events), Controls(events))
  {
    if events != [] {
      var front, e := events[..|events| - 1], events[|events| - 1];
      var cs, session := Controls(front), AfterAll(front).session;
      SessionIsLast(front);
      RoomIsOk(front);
      match e {
        case Control(c) =>
          Extended(cs, c);
          SortedRun(front);
          ControlSorts(RoomAfter(front), cs, session, c);
        case Audio(f) =>
          assert cs + [] == cs;
          SortedRun(front);
          AudioSorts(RoomAfter(front), cs, session, f);
        case Listen(who) =>
          assert cs + [] == cs;
          SortedRun(front);
          ListenSorts(RoomAfter(front), cs, session, who);
      }
    }
  }

  // ---------------------------------------------------------------------------------------
  // A run that mixes sessions up

  function AsEvents(cs: seq<Control>): (events: seq<Event>)
    ensures |events| == |cs|
  {
    seq(|cs|, i requires 0 <= i < |cs| => Control(cs[i]))
  }

  lemma AsEventsSnoc(cs: seq<Control>, c: Control)
    ensures AsEvents(cs + [c]) == AsEvents(cs) + [Control(c)]
  {
  }

  lemma {:induction false} ControlsOfAll(cs: seq<Control>)
    ensures Controls(AsEvents(cs)) == cs
  {
    if cs != [] {
      var front, c := cs[..|cs| - 1], cs[|cs| - 1];
      ControlsOfAll(front);
      AsEventsSnoc(front, c);
      assert front + [c] == cs;
    }
  }

  lemma {:induction false} ControlsConcat(a: seq<Event>, b: seq<Event>)
    ensures Controls(a + b) == Controls(a) + Controls(b)
  {
    if b == [] {
      assert a + b == a && Controls(a) + [] == Controls(a);
    } else {
      var front, e := b[..|b| - 1], b[|b| - 1];
      ControlsConcat(a, front);
      assert (a + b)[..|a + b| - 1] == a + front && (a + b)[|a + b| - 1] == e;
      Assoc(Controls(a), Controls(front), if e.Control? then [e.control] else []);
    }
  }

  function Starts(cs: seq<Control>, n: nat): nat
    requires n <= |cs|
    decreases n
  {
    if n == 0 then 0 else Starts(cs, n - 1) + if cs[n - 1].Start? then 1 else 0
  }

  lemma {:induction false} SameStarts(a: seq<Control>, b: seq<Control>, n: nat)
    requires n <= |a| && n <= |b| && forall k :: 0 <= k < n ==> a[k] == b[k]
    ensures Starts(a, n) == Starts(b, n)
    decreases n
  {
    if n > 0 {
      SameStarts(a, b, n - 1);
    }
  }

  lemma {:induction false} StartsGrow(cs: seq<Control>, m: nat, n: nat)
    requires m <= n <= |cs|
    ensures Starts(cs, m) <= Starts(cs, n)
    ensures m < n && cs[m].Start? ==> Starts(cs, m) < Starts(cs, n)
    decreases n
  {
    if m < n {
      StartsGrow(cs, m, n - 1);
    }
  }

  /** The task of start `i` was never cancelled. */
  predicate Runs(cs: seq<Control>, i: nat) { i < |cs| && cs[i].Start? && (i + 1 < |cs| ==> !cs[i + 1].End?) }

  predicate TaskOf(r: Room, cs: seq<Control>, i: nat)
    requires i < |cs|
  {
    var who := Starts(cs, i);
    cs[i].Start? && who < |r.listeners| && r.listeners[who] == Listener(cs[i].id, true)
  }

  /** Control messages alone: nothing is sent or heard, and the tasks are those of the starts. */
  ghost predicate Silent(r: Room, cs: seq<Control>) {
    && r.queue.sent == [] && r.queue.first == 0 && r.queue.taken == [] && r.owners == [] && r.takers == []
    && (r.queue.items == [] || r.queue.items == [None])
    && |r.listeners| == Starts(cs, |cs|)
    && forall i :: 0 <= i < |cs| && Runs(cs, i) ==> TaskOf(r, cs, i)
  }

  lemma SilentStep(r: Room, cs: seq<Control>, session: Option<nat>, c: Control)
    requires Silent(r, cs) && (session.Some? <==> Active(cs))
    ensures Silent(StepRoom(r, session, Control(c)), cs + [c])
  {
    var all, after := cs + [c], StepRoom(r, session, Control(c));
    assert forall k :: 0 <= k < |cs| ==> all[k] == cs[k];
    SameStarts(cs, all, |cs|);
    forall i | 0 <= i < |all| && Runs(all, i) ensures TaskOf(after, all, i) {
      if i < |cs| {
        SameStarts(cs, all, i);
        StartsGrow(cs, i, |cs|);
        assert Runs(cs, i) && TaskOf(r, cs, i);
        if c.End? && session.Some? {
          StartsGrow(cs, i, |cs| - 1);
          assert i < |cs| - 1;
        }
      }
    }
  }

  lemma {:induction false} SilentRun(cs: seq<Control>)
    ensures Silent(RoomAfter(AsEvents(cs)), cs)
  {
    if cs != [] {
      var front, c := cs[..|cs| - 1], cs[|cs| - 1];
      SilentRun(front);
      AsEventsSnoc(front, c);
      assert front + [c] == cs;
      ControlsOfAll(front);
      GaugeInvariant(AsEvents(front));
      RoomStep(AsEvents(front), Control(c));
      SilentStep(RoomAfter(AsEvents(front)), front, AfterAll(AsEvents(front)).session, c);
    }
  }

  /** The books only grow. */
  lemma StepOnlyAdds(r: Room, session: Option<nat>, e: Event)
    ensures var after := StepRoom(r, session, e);
            r.takers <= after.takers && r.queue.taken <= after.queue.taken && r.owners <= after.owners
  {
  }

  lemma MisheardStep(r: Room, session: Option<nat>, e: Event)
    requires !HeardRight(r)
    ensures !HeardRight(StepRoom(r, session, e))
  {
    StepOnlyAdds(r, session, e);
    var after := StepRoom(r, session, e);
    var i :| 0 <= i < |r.takers| && i < |r.queue.taken| && r.queue.taken[i] < |r.owners| && r.takers[i] != r.owners[r.queue.taken[i]];
    assert after.takers[i] != after.owners[after.queue.taken[i]];
  }

  /** What was heard wrongly stays so. */
  lemma {:induction false} MisheardStays(events: seq<Event>, more: seq<Event>)
    requires !HeardRight(RoomAfter(events))
    ensures !HeardRight(RoomAfter(events + more))
  {
    if more == [] {
      assert events + more == events;
    } else {
      var front, e := more[..|more| - 1], more[|more| - 1];
      MisheardStays(events, front);
      assert front + [e] == more;
      Assoc(events, front, [e]);
      RoomStep(events + front, e);
      MisheardStep(RoomAfter(events + front), AfterAll(events + front).session, e);
    }
  }

  /** Two tasks of different sessions, nothing sent so far, and the sentinel at most in the queue. */
  predicate TwoTasks(r: Room, orphan: nat, newest: nat, id: nat) {
    && r.queue.sent == [] && r.queue.first == 0 && r.queue.taken == [] && r.owners == [] && r.takers == []
    && orphan != newest && Alive(r, orphan) && r.listeners[orphan].session != id
  }

  lemma SentinelTaken(r: Room, orphan: nat, newest: nat, id: nat)
    requires TwoTasks(r, orphan, newest, id) && r.queue.items == [None] && Alive(r, newest)
    ensures var after := StepRoom(r, Some(id), Listen(newest)); TwoTasks(after, orphan, newest, id) && after.queue.items == []
  {
  }

  lemma OrphanHears(r: Room, orphan: nat, newest: nat, id: nat)
    requires TwoTasks(r, orphan, newest, id) && r.queue.items == []
    ensures !HeardRight(StepRoom(StepRoom(r, Some(id), Audio([0])), Some(id), Listen(orphan)))
  {
    var sent := StepRoom(r, Some(id), Audio([0]));
    assert sent.queue.items == [Some([0])] && sent.owners == [id] && sent.queue.first == 0;
    var after := StepRoom(sent, Some(id), Listen(orphan));
    assert after.takers == [r.listeners[orphan].session] && after.queue.taken == [0] && after.owners == [id];
    assert after.takers[0] != after.owners[after.queue.taken[0]];
  }

  /** The task of an abandoned start hears the first frame of another session. */
  lemma Mishearing(cs: seq<Control>, i: nat) returns (events: seq<Event>)
    requires cs != [] && cs[|cs| - 1].Start? && i < |cs| - 1 && Runs(cs, i) && cs[i].id != cs[|cs| - 1].id
    ensures Controls(events) == cs && !HeardRight(RoomAfter(events))
  {
    var id, orphan, newest := cs[|cs| - 1].id, Starts(cs, i), Starts(cs, |cs| - 1);
    events := AsEvents(cs);
    ControlsOfAll(cs);
    BothTasksRun(cs, i);
    if RoomAfter(events).queue.items == [None] {
      SentinelTaken(RoomAfter(events), orphan, newest, id);
      events := WithListen(events, newest);
    }
    OrphanHears(RoomAfter(events), orphan, newest, id);
    RoomStep(events, Audio([0]));
    ControlsConcat(events, [Audio([0])]);
    events := WithListen(events + [Audio([0])], orphan);
  }

  lemma BothTasksRun(cs: seq<Control>, i: nat)
    requires cs != [] && cs[|cs| - 1].Start? && i < |cs| - 1 && Runs(cs, i) && cs[i].id != cs[|cs| - 1].id
    ensures var r, id := RoomAfter(AsEvents(cs)), cs[|cs| - 1].id;
            && TwoTasks(r, Starts(cs, i), Starts(cs, |cs| - 1), id) && Alive(r, Starts(cs, |cs| - 1))
            && (r.queue.items == [] || r.queue.items == [None]) && AfterAll(AsEvents(cs)).session == Some(id)
  {
    SilentRun(cs);
    ControlsOfAll(cs);
    SessionIsLast(AsEvents(cs));
    StartsGrow(cs, i, |cs| - 1);
    assert Runs(cs, |cs| - 1) && TaskOf(RoomAfter(AsEvents(cs)), cs, |cs| - 1) && TaskOf(RoomAfter(AsEvents(cs)), cs, i);
  }

  /** One more request, which is no control message. */
  lemma WithListen(events: seq<Event>, who: nat) returns (more: seq<Event>)
    ensures more == events + [Listen(who)] && Controls(more) == Controls(events) && AfterAll(more) == AfterAll(events)
    ensures RoomAfter(more) == StepRoom(RoomAfter(events), AfterAll(events).session, Listen(who))
  {
    more := events + [Listen(who)];
    RoomStep(events, Listen(who));
    ControlsConcat(events, [Listen(who)]);
  }

  /** Every frame is heard only by tasks of its own session, whenever it comes and whichever task
      asks for it. */
  ghost predicate AlwaysHeardRight(cs: seq<Control>) {
    forall events :: Controls(events) == cs ==> HeardRight(RoomAfter(events))
  }

  /** So it is exactly when no start is abandoned, left by a control message other than its end,
      before a start of another session. */
  lemma HeardRightExactlyWhen(cs: seq<Control>)
    ensures AlwaysHeardRight(cs) <==> NoMix(cs)
  {
    if NoMix(cs) {
      forall events | Controls(events) == cs ensures HeardRight(RoomAfter(events)) {
        SortedRun(events);
      }
    } else {
      var i, j :| Mixes(cs, i, j);
      var events := MixIsHeard(cs, i, j);
    }
  }

  lemma MixIsHeard(cs: seq<Control>, i: nat, j: nat) returns (events: seq<Event>)
    requires Mixes(cs, i, j)
    ensures Controls(events) == cs && !HeardRight(RoomAfter(events))
  {
    var before, after := cs[..j + 1], cs[j + 1..];
    assert before + after == cs;
    var start := Mishearing(before, i);
    var more := AsEvents(after);
    MisheardStays(start, more);
    ControlsConcat(start, more);
    ControlsOfAll(after);
    events := start + more;
  }

  // ---------------------------------------------------------------------------------------
  // The loop

  /** One event, on the loop's variables, the tasks and the queue. */
  method HandleEvent(e: Event, session: Option<nat>, gauge: int, listeners: seq<Listener>, heard: seq<bytes>, takers: seq<nat>,
                     queue: AudioQueue, ghost r: Room)
    returns (session': Option<nat>, gauge': int, listeners': seq<Listener>, heard': seq<bytes>, takers': seq<nat>)
    requires queue.Valid() && queue.capacity == MAX_FRAMES
    requires queue.items == r.queue.items && heard == r.queue.heard && listeners == r.listeners && takers == r.takers
    modifies queue
    ensures queue.Valid()
    ensures Connection(session', gauge') == Receive(Connection(session, gauge), e)
    ensures var after := StepRoom(r, session, e);
            queue.items == after.queue.items && heard' == after.queue.heard && listeners' == after.listeners && takers' == after.takers
  {
    session', gauge', listeners', heard', takers' := session, gauge, listeners, heard, takers;
    match e {
      case Control(c) =>
        var entry := ResultEntry(c, session);
        gauge' := gauge + GaugeChange(c, session);
        if c.Start? {
          listeners' := listeners + [Listener(c.id, true)];
        }
        if c.End? && session.Some? {
          queue.SignalEnd();
          if listeners != [] {
            listeners' := Stopped(listeners, |listeners| - 1);
          }
        }
        if entry.Some? {
          session' := entry.value;
        }
        if (entry.None? || entry.value.None?) && session'.Some? {
          session' := None;
        }
      case Audio(frame) =>
        if session.Some? {
          var overflowed := queue.Enqueue(frame);
        }
      case Listen(who) =>
        if who < |listeners| && listeners[who].alive {
          var entry := queue.Take();
          if entry.Some? && entry.value.Some? {
            heard' := heard + [entry.value.value];
            takers' := takers + [listeners[who].session];
          } else if entry.Some? {
            listeners' := Stopped(listeners, who);
          }
        }
    }
  }

  /** Runs the receive loop, the listening tasks and the cleanup. */
  method Serve(events: seq<Event>, exit: Exit) returns (gauge: int, heard: seq<bytes>, takers: seq<nat>, queue: AudioQueue)
    ensures gauge == NetGauge(events, exit)
    ensures heard == RoomAfter(events).queue.heard && takers == RoomAfter(events).takers
    ensures fresh(queue) && queue.items == [None]
  {
    queue := new AudioQueue(MAX_FRAMES);
    gauge, heard, takers := 0, [], [];
    var session: Option<nat>, listeners: seq<Listener> := None, [];
    for i := 0 to |events|
      invariant AfterAll(events[..i]) == Connection(session, gauge)
      invariant fresh(queue) && queue.Valid() && queue.capacity == MAX_FRAMES
      invariant queue.items == RoomAfter(events[..i]).queue.items && heard == RoomAfter(events[..i]).queue.heard
      invariant listeners == RoomAfter(events[..i]).listeners && takers == RoomAfter(events[..i]).takers
    {
      assert events[..i + 1] == events[..i] + [events[i]];
      RoomStep(events[..i], events[i]);
      session, gauge, listeners, heard, takers :=
        HandleEvent(events[i], session, gauge, listeners, heard, takers, queue, RoomAfter(events[..i]));
    }
    assert events[..|events|] == events;
    if exit.Raised? && exit.touched {
      gauge := gauge + GaugeChange(exit.control, session);
    }
    queue.SignalEnd();
    if session.Some? {
      gauge := gauge - 1;
    }
  }
}
