/** One voice WebSocket connection: the session it thinks it has, the gauge of active
    sessions, and the bounded queue of incoming audio. */
module VoiceSocket {
  import opened Text
  import opened Bytes

  const MAX_FRAMES: nat := 256

  // ---------------------------------------------------------------------------------------
  // The receive loop

  /** A control message, by what its handler does. */
  datatype Control =
    | Start(id: nat)   // authorized, within limits, and set up
    | StartRefused     // unauthorized, rate limited, or unknown session
    | Interrupt | End | Ping
    | Garbled          // not JSON
    | Other            // unknown type

  /** What happens on a connection: a message comes in, or one of its listening tasks, numbered by
      the starts that made them, asks for the oldest entry of the audio queue. */
  datatype Event = Control(control: Control) | Audio(frame: bytes) | Listen(who: nat)

  datatype Connection = Connection(session: Option<nat>, gauge: int)

  /** How the loop is left: by disconnect, or by a handler that raises before or after it
      touched the gauge. */
  datatype Exit = Disconnect | Raised(control: Control, touched: bool)

  const OPENED := Connection(None, 0)

  /** The handler's effect on the gauge. */
  function GaugeChange(c: Control, session: Option<nat>): int {
    if c.Start? then 1 else if c.End? && session.Some? then -1 else 0
  }

  /** The `session_id` entry of the handler's result: missing, null, or an identifier. */
  function ResultEntry(c: Control, session: Option<nat>): Option<Option<nat>> {
    if c.Start? then Some(Some(c.id)) else if c.End? && session.Some? then Some(None) else None
  }

  /** The loop takes the entry, and then forgets its session whenever the entry was missing or null. */
  function NextSession(entry: Option<Option<nat>>, session: Option<nat>): Option<nat> {
    var taken := if entry.Some? then entry.value else session;
    if (entry.None? || entry.value.None?) && taken.Some? then None else taken
  }

  function Receive(s: Connection, m: Event): Connection {
    match m
    case Audio(_) => s
    case Listen(_) => s
    case Control(c) =>
      Connection(NextSession(ResultEntry(c, s.session), s.session), s.gauge + GaugeChange(c, s.session))
  }

  function AfterAll(messages: seq<Event>): Connection {
    if messages == [] then OPENED else Receive(AfterAll(messages[..|messages| - 1]), messages[|messages| - 1])
  }

  /** The gauge once the connection is cleaned up. */
  function NetGauge(messages: seq<Event>, exit: Exit): int {
    var s := AfterAll(messages);
    s.gauge
    + (if exit.Raised? && exit.touched then GaugeChange(exit.control, s.session) else 0)
    - (if s.session.Some? then 1 else 0)
  }

  function Controls(messages: seq<Event>): seq<Control> {
    if messages == [] then []
    else
      var m := messages[|messages| - 1];
      Controls(messages[..|messages| - 1]) + if m.Control? then [m.control] else []
  }

  /** Position `i` holds a start whose next control message is not an end. */
  predicate Abandoned(cs: seq<Control>, i: nat) {
    i + 1 < |cs| && cs[i].Start? && !cs[i + 1].End?
  }

  function CountAbandoned(cs: seq<Control>, n: nat): nat
    requires n <= |cs|
    decreases |cs|, n
  {
    if n == 0 then 0 else CountAbandoned(cs, n - 1) + if Abandoned(cs, n - 1) then 1 else 0
  }

  /** Successful starts followed, before an end or the close, by any other control message. */
  function Leaks(cs: seq<Control>): nat { CountAbandoned(cs, |cs|) }

  predicate Active(cs: seq<Control>) { cs != [] && cs[|cs| - 1].Start? }

  lemma {:induction false} CountOfExtension(cs: seq<Control>, c: Control, n: nat)
    requires n < |cs|
    ensures CountAbandoned(cs + [c], n) == CountAbandoned(cs, n)
    decreases n
  {
    if n > 0 {
      CountOfExtension(cs, c, n - 1);
    }
  }

  lemma LeaksOfExtension(cs: seq<Control>, c: Control)
    ensures Leaks(cs + [c]) == Leaks(cs) + if Active(cs) && !c.End? then 1 else 0
  {
    var n := |cs|;
    assert CountAbandoned(cs + [c], n + 1) == CountAbandoned(cs + [c], n);
    if n > 0 {
      CountOfExtension(cs, c, n - 1);
      assert CountAbandoned(cs + [c], n) == CountAbandoned(cs + [c], n - 1) + if Abandoned(cs + [c], n - 1) then 1 else 0;
      assert CountAbandoned(cs, n) == CountAbandoned(cs, n - 1);
    }
  }

  /** The connection holds a session exactly when its last control message started one, and
      the gauge is above its level at opening by the leaks and that session. */
  lemma {:induction false} GaugeInvariant(messages: seq<Event>)
    ensures var s, cs := AfterAll(messages), Controls(messages);
            && (s.session.Some? <==> Active(cs))
            && s.gauge == Leaks(cs) + if Active(cs) then 1 else 0
  {
    if messages != [] {
      var front, m := messages[..|messages| - 1], messages[|messages| - 1];
      GaugeInvariant(front);
      if m.Control? {
        LeaksOfExtension(Controls(front), m.control);
      } else {
        assert Controls(front) + [] == Controls(front);
      }
    }
  }

  /** For every sequence of messages, the net change of the gauge at close is the number of
      abandoned starts -- plus one for a start that raises after counting itself, minus one
      for an end that raises after uncounting a session the cleanup then uncounts again. */
  lemma GaugeTheorem(messages: seq<Event>, exit: Exit)
    ensures var cs := Controls(messages);
            NetGauge(messages, exit) == Leaks(cs)
              + if exit.Raised? && exit.touched && exit.control.Start? then 1
                else if exit.Raised? && exit.touched && exit.control.End? && Active(cs) then -1
                else 0
  {
    GaugeInvariant(messages);
  }

  lemma {:induction false} CountIsZero(cs: seq<Control>, n: nat)
    requires n <= |cs|
    ensures CountAbandoned(cs, n) == 0 <==> forall i :: 0 <= i < n ==> !Abandoned(cs, i)
    decreases n
  {
    if n > 0 {
      CountIsZero(cs, n - 1);
    }
  }

  /** On runs whose handlers complete, the gauge returns to its level exactly when no start was
      followed by a control message other than its end. */
  lemma BalancedExactlyWhen(messages: seq<Event>)
    ensures NetGauge(messages, Disconnect) == 0 <==>
            forall i :: 0 <= i < |Controls(messages)| ==> !Abandoned(Controls(messages), i)
  {
    GaugeTheorem(messages, Disconnect);
    CountIsZero(Controls(messages), |Controls(messages)|);
  }

  /** A heartbeat is enough to leak. */
  lemma PingLeaks(id: nat)
    ensures NetGauge([Control(Start(id)), Control(Ping), Control(End)], Disconnect) == 1
  {
    var a, b, c := Control(Start(id)), Control(Ping), Control(End);
    AfterOneMore([], a);
    AfterOneMore([a], b);
    AfterOneMore([a, b], c);
    assert [] + [a] == [a] && [a] + [b] == [a, b] && [a, b] + [c] == [a, b, c];
  }

  lemma AfterOneMore(messages: seq<Event>, m: Event)
    ensures AfterAll(messages + [m]) == Receive(AfterAll(messages), m)
  {
    assert (messages + [m])[..|messages|] == messages;
  }

  // ---------------------------------------------------------------------------------------
  // The audio queue

  class AudioQueue {
    const capacity: nat
    var items: seq<Option<bytes>>   // None is the end sentinel

    ghost predicate Valid()
      reads this
    {
      1 <= capacity && |items| <= capacity
    }

    constructor (capacity: nat)
      requires capacity >= 1
      ensures Valid() && items == [] && this.capacity == capacity
    {
      this.capacity := capacity;
      items := [];
    }

    /** Puts the newest frame, dropping the oldest entry when the queue is full. */
    method Enqueue(frame: bytes) returns (overflowed: bool)
      requires Valid()
      modifies this
      ensures Valid() && overflowed == (old(|items|) == capacity)
      ensures items == (if old(|items|) < capacity then old(items) else old(items[1..])) + [Some(frame)]
      ensures items == Put(old(items), Some(frame), capacity)
    {
      if |items| < capacity {
        items := items + [Some(frame)];
        return false;
      }
      items := items[1..];
      items := items + [Some(frame)];
      return true;
    }

    /** `get`: the oldest entry, if there is one. */
    method Take() returns (entry: Option<Option<bytes>>)
      requires Valid()
      modifies this
      ensures Valid() && items == (if old(items) == [] then [] else old(items)[1..])
      ensures entry == if old(items) == [] then None else Some(old(items)[0])
    {
      entry := None;
      if items != [] {
        entry := Some(items[0]);
        items := items[1..];
      }
    }

    /** Empties the queue and leaves only the end sentinel. */
    method SignalEnd()
      requires Valid()
      modifies this
      ensures Valid() && items == [None]
    {
      while items != []
        invariant Valid()
        decreases |items|
      {
        items := items[1..];
      }
      items := items + [None];
    }
  }

  function Put<T>(items: seq<T>, x: T, capacity: nat): seq<T>
    requires capacity >= 1
  {
    if |items| < capacity then items + [x] else items[1..] + [x]
  }

  /** The ingress puts frames or ends the stream; a listening task takes the oldest entry. */
  datatype QueueOp = PutFrame(frame: bytes) | TakeEntry | EndSignal

  /** `sent` is everything put so far, `first` the position of the oldest frame still queued,
      `taken` the positions the listeners received and `heard` those frames, `dropped` the frames
      lost to overflow and `discarded` the ones an end signal threw away. */
  datatype Queue = Queue(
    items: seq<Option<bytes>>, sent: seq<bytes>, first: nat, taken: seq<nat>, heard: seq<bytes>, dropped: nat, discarded: nat)

  predicate StartsWithSentinel(items: seq<Option<bytes>>) { items != [] && items[0].None? }

  function Operate(q: Queue, op: QueueOp, capacity: nat): Queue
    requires capacity >= 1
  {
    match op
    case PutFrame(f) =>
      var lost := if |q.items| < capacity || StartsWithSentinel(q.items) then 0 else 1;
      q.(items := Put(q.items, Some(f), capacity), sent := q.sent + [f], first := q.first + lost, dropped := q.dropped + lost)
    case TakeEntry =>
      if q.items == [] then q
      else if q.items[0].None? then q.(items := q.items[1..])
      else q.(items := q.items[1..], first := q.first + 1, taken := q.taken + [q.first], heard := q.heard + [q.items[0].value])
    case EndSignal =>
      q.(items := [None], first := |q.sent|, discarded := q.discarded + if |q.sent| >= q.first then |q.sent| - q.first else 0)
  }

  const EMPTY_QUEUE := Queue([], [], 0, [], [], 0, 0)

  function Operated(ops: seq<QueueOp>, capacity: nat): Queue
    requires capacity >= 1
  {
    if ops == [] then EMPTY_QUEUE else Operate(Operated(ops[..|ops| - 1], capacity), ops[|ops| - 1], capacity)
  }

  predicate Increasing(s: seq<nat>, bound: nat) {
    && (forall i :: 0 <= i < |s| ==> s[i] < bound)
    && (forall i, j :: 0 <= i < j < |s| ==> s[i] < s[j])
  }

  /** At most a sentinel in front, then the frames from `first` on. */
  predicate HoldsFrom(items: seq<Option<bytes>>, sent: seq<bytes>, first: nat) {
    var n := if StartsWithSentinel(items) then 1 else 0;
    && first <= |sent| && |items| == n + |sent| - first
    && forall i :: n <= i < |items| ==> items[i] == Some(sent[first + i - n])
  }

  /** The listeners received these frames, in the order they were sent, none twice. */
  predicate HeardInOrder(q: Queue) {
    && Increasing(q.taken, q.first) && |q.heard| == |q.taken|
    && forall i :: 0 <= i < |q.taken| ==> q.taken[i] < |q.sent| && q.heard[i] == q.sent[q.taken[i]]
  }

  predicate QueueOk(q: Queue, capacity: nat) {
    && |q.items| <= capacity && HoldsFrom(q.items, q.sent, q.first) && HeardInOrder(q)
    && q.first == |q.taken| + q.dropped + q.discarded
  }

  lemma PutKeepsOk(q: Queue, f: bytes, capacity: nat)
    requires capacity >= 1 && QueueOk(q, capacity)
    ensures QueueOk(Operate(q, PutFrame(f), capacity), capacity)
  {
    var r := Operate(q, PutFrame(f), capacity);
    assert forall i :: 0 <= i < |q.sent| ==> r.sent[i] == q.sent[i];
    assert HoldsFrom(r.items, r.sent, r.first) by {
      assert r.items[|r.items| - 1] == Some(f) && r.sent[|q.sent|] == f;
    }
    assert HeardInOrder(r);
  }

  lemma TakeKeepsOk(q: Queue, capacity: nat)
    requires capacity >= 1 && QueueOk(q, capacity)
    ensures QueueOk(Operate(q, TakeEntry, capacity), capacity)
  {
    var r := Operate(q, TakeEntry, capacity);
    assert HoldsFrom(r.items, r.sent, r.first);
    assert HeardInOrder(r);
  }

  /** What each operation does to the oldest entry: an overflow drops it, or the sentinel in its place; a
      listener receives it, and an end signal throws all frames away. */
  lemma OldestEntry(q: Queue, f: bytes, capacity: nat)
    requires capacity >= 1 && QueueOk(q, capacity)
    ensures |q.items| == capacity ==>
              Operate(q, PutFrame(f), capacity).dropped == q.dropped + if StartsWithSentinel(q.items) then 0 else 1
    ensures |q.items| < capacity ==> Operate(q, PutFrame(f), capacity).dropped == q.dropped
    ensures q.items != [] && !StartsWithSentinel(q.items) ==>
              var r := Operate(q, TakeEntry, capacity);
              && q.items[0] == Some(q.sent[q.first]) && r.items == q.items[1..]
              && r.heard == q.heard + [q.sent[q.first]] && r.taken == q.taken + [q.first]
    ensures Operate(q, EndSignal, capacity).items == [None]
    ensures Operate(q, EndSignal, capacity).discarded == q.discarded + |q.sent| - q.first
  {
  }

  lemma OperateKeepsOk(q: Queue, op: QueueOp, capacity: nat)
    requires capacity >= 1 && QueueOk(q, capacity)
    ensures QueueOk(Operate(q, op, capacity), capacity)
  {
    match op {
      case PutFrame(f) => PutKeepsOk(q, f, capacity);
      case TakeEntry => TakeKeepsOk(q, capacity);
      case EndSignal =>
    }
  }

  /** In every interleaving of the two sides, end signals included: the queue holds the newest
      frames, behind at most one sentinel and never more than its capacity, and the listeners
      receive frames in the order they came, none twice. */
  lemma {:induction false} QueueHoldsNewest(ops: seq<QueueOp>, capacity: nat)
    requires capacity >= 1
    ensures QueueOk(Operated(ops, capacity), capacity)
  {
    if ops != [] {
      QueueHoldsNewest(ops[..|ops| - 1], capacity);
      OperateKeepsOk(Operated(ops[..|ops| - 1], capacity), ops[|ops| - 1], capacity);
    }
  }

  predicate Ended(ops: seq<QueueOp>) { exists i :: 0 <= i < |ops| && ops[i].EndSignal? }

  lemma {:induction false} SentinelNeedsEnd(ops: seq<QueueOp>, capacity: nat)
    requires capacity >= 1 && StartsWithSentinel(Operated(ops, capacity).items)
    ensures Ended(ops)
  {
    var front, op := ops[..|ops| - 1], ops[|ops| - 1];
    QueueHoldsNewest(front, capacity);
    if !op.EndSignal? {
      SentinelNeedsEnd(front, capacity);
      var i :| 0 <= i < |front| && front[i].EndSignal?;
      assert ops[i].EndSignal?;
    }
  }

  /** No frame is dropped before frames and a sentinel together exceed the capacity. */
  lemma {:induction false} DropsOnlyWhenFull(ops: seq<QueueOp>, capacity: nat)
    requires capacity >= 1 && |Operated(ops, capacity).sent| + (if Ended(ops) then 1 else 0) <= capacity
    ensures Operated(ops, capacity).dropped == 0
  {
    if ops != [] {
      var front := ops[..|ops| - 1];
      var q := Operated(front, capacity);
      assert Ended(front) ==> Ended(ops) by {
        assert forall i :: 0 <= i < |front| ==> ops[i] == front[i];
      }
      DropsOnlyWhenFull(front, capacity);
      QueueHoldsNewest(front, capacity);
      if StartsWithSentinel(q.items) {
        SentinelNeedsEnd(front, capacity);
      }
      assert |q.items| <= |q.sent| + if Ended(ops) then 1 else 0;
    }
  }

  /** Every frame is queued, received, dropped by an overflow or discarded by an end signal; and
      none is dropped before frames and a sentinel together exceed the capacity. */
  lemma FramesAreAccountedFor(ops: seq<QueueOp>, capacity: nat)
    requires capacity >= 1
    ensures var q := Operated(ops, capacity);
            var queued := |q.items| - if StartsWithSentinel(q.items) then 1 else 0;
            && |q.sent| == queued + |q.taken| + q.dropped + q.discarded
            && (|q.sent| + (if Ended(ops) then 1 else 0) <= capacity ==> q.dropped == 0)
  {
    QueueHoldsNewest(ops, capacity);
    if |Operated(ops, capacity).sent| + (if Ended(ops) then 1 else 0) <= capacity {
      DropsOnlyWhenFull(ops, capacity);
    }
  }

  /** The last `n` frames, or all of them. */
  predicate AreNewest(items: seq<Option<bytes>>, frames: seq<bytes>, n: nat) {
    && |items| == (if |frames| < n then |frames| else n)
    && forall i :: 0 <= i < |items| ==> items[i] == Some(frames[|frames| - |items| + i])
  }

  /** Without a listener and an end signal the queue holds exactly the newest `capacity` frames. */
  lemma {:induction false} UnheardQueueHoldsNewest(frames: seq<bytes>, capacity: nat)
    requires capacity >= 1
    ensures AreNewest(PutAll(EMPTY_QUEUE, frames, capacity).items, frames, capacity)
  {
    if frames != [] {
      var front, f := frames[..|frames| - 1], frames[|frames| - 1];
      UnheardQueueHoldsNewest(front, capacity);
      NewestAfterPut(PutAll(EMPTY_QUEUE, front, capacity).items, front, f, capacity);
      assert front + [f] == frames;
    }
  }

  lemma NewestAfterPut(items: seq<Option<bytes>>, frames: seq<bytes>, f: bytes, capacity: nat)
    requires capacity >= 1 && AreNewest(items, frames, capacity)
    ensures AreNewest(Put(items, Some(f), capacity), frames + [f], capacity)
  {
    var after, all := Put(items, Some(f), capacity), frames + [f];
    forall i | 0 <= i < |after| ensures after[i] == Some(all[|all| - |after| + i]) {
      if i < |after| - 1 {
        var was := if |items| < capacity then i else i + 1;
        assert after[i] == items[was];
      }
    }
  }

  /** Frames put one after the other. */
  function PutAll(q: Queue, frames: seq<bytes>, capacity: nat): Queue
    requires capacity >= 1
  {
    if frames == [] then q
    else Operate(PutAll(q, frames[..|frames| - 1], capacity), PutFrame(frames[|frames| - 1]), capacity)
  }

  function OperateAll(q: Queue, ops: seq<QueueOp>, capacity: nat): Queue
    requires capacity >= 1
  {
    if ops == [] then q else Operate(OperateAll(q, ops[..|ops| - 1], capacity), ops[|ops| - 1], capacity)
  }

  /** After an end signal, and until the next one, the oldest entry is the sentinel exactly when
      nobody has taken an entry and fewer frames came than the queue has places. */
  lemma {:induction false} SentinelComesFirst(q: Queue, ops: seq<QueueOp>, capacity: nat)
    requires capacity >= 1 && forall i :: 0 <= i < |ops| ==> !ops[i].EndSignal?
    ensures var r := OperateAll(Operate(q, EndSignal, capacity), ops, capacity);
            && (StartsWithSentinel(r.items) <==> AllPuts(ops) && |ops| < capacity)
            && (StartsWithSentinel(r.items) ==> |r.items| == |ops| + 1)
            && (forall i :: 1 <= i < |r.items| ==> r.items[i].Some?)
  {
    if ops != [] {
      var front, op := ops[..|ops| - 1], ops[|ops| - 1];
      SentinelComesFirst(q, front, capacity);
      assert !op.EndSignal?;
      assert AllPuts(ops) <==> AllPuts(front) && op.PutFrame?;
    }
  }

  predicate AllPuts(ops: seq<QueueOp>) { forall i :: 0 <= i < |ops| ==> ops[i].PutFrame? }
}
