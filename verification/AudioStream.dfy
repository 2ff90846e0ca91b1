/** Streaming audio: re-framing an HTTP body without splitting samples, and publishing it in
    frames of exactly ten milliseconds. */
module AudioStream {
  import opened Arith
  import opened Text
  import opened Bytes

  // ---------------------------------------------------------------------------------------
  // The synthesizer's side

  predicate Even(b: bytes) { |b| % 2 == 0 }

  /** The zero byte that completes an odd body. */
  function Completion(n: nat): (r: bytes)
    ensures |r| == n % 2 && forall k :: 0 <= k < |r| ==> r[k] == 0
  {
    if n % 2 == 1 then [0] else []
  }

  predicate WholeSamples(chunks: seq<bytes>) {
    forall c :: c in chunks ==> c != [] && Even(c)
  }

  /** Whole samples, and the odd byte after them. */
  method SplitSamples(joined: bytes) returns (data: bytes, leftover: bytes)
    ensures data + leftover == joined && Even(data) && |leftover| <= 1
  {
    data, leftover := joined, [];
    if |data| % 2 == 1 {
      leftover := data[|data| - 1..];
      data := data[..|data| - 1];
    }
  }

  /** Cuts the received blocks at sample boundaries; a last half sample is completed with zero. */
  method Reframe(blocks: seq<bytes>) returns (chunks: seq<bytes>)
    ensures WholeSamples(chunks)
    ensures Flatten(chunks) == Flatten(blocks) + Completion(|Flatten(blocks)|)
  {
    chunks := [];
    var leftover: bytes := [];
    ghost var sent, seen: bytes := [], [];
    for i := 0 to |blocks|
      invariant |leftover| <= 1 && Even(sent) && WholeSamples(chunks)
      invariant sent == Flatten(chunks) && seen == Flatten(blocks[..i]) && sent + leftover == seen
    {
      FlattenTake(blocks, i);
      Assoc(sent, leftover, blocks[i]);
      seen := seen + blocks[i];
      if blocks[i] == [] {
        continue;
      }
      var data;
      data, leftover := SplitSamples(leftover + blocks[i]);
      Assoc(sent, data, leftover);
      if data != [] {
        FlattenSnoc(chunks, data);
        chunks := chunks + [data];
      }
      sent := sent + data;
    }
    assert blocks[..|blocks|] == blocks;
    if |leftover| == 1 {
      FlattenSnoc(chunks, leftover + [0]);
      Assoc(sent, leftover, [0]);
      chunks := chunks + [leftover + [0]];
    }
  }

  // ---------------------------------------------------------------------------------------
  // The publisher

  /** `sample_rate * 10 // 1000 * 2`. */
  function FrameBytes(rate: nat): nat { rate * 10 / 1000 * 2 }

  /** Draining terminates exactly when a frame is not empty. */
  lemma FrameIsNonEmpty(rate: nat)
    ensures FrameBytes(rate) >= 1 <==> rate >= 100
    ensures FrameBytes(rate) % 2 == 0
  {
  }

  /** The queue of bytes not yet framed, and the frames handed to the audio source. */
  datatype View = View(pending: bytes, frames: seq<bytes>)

  /** The first `n` whole frames of a queue, or all of them, and what is left of it. */
  function WholeFrames(pending: bytes, size: nat, n: nat): seq<bytes>
    requires size >= 1
  {
    if n == 0 || |pending| < size then [] else [pending[..size]] + WholeFrames(pending[size..], size, n - 1)
  }

  function Rest(pending: bytes, size: nat, n: nat): bytes
    requires size >= 1
  {
    if n == 0 || |pending| < size then pending else Rest(pending[size..], size, n - 1)
  }

  /** Where draining stops: the task may be cancelled while it hands out a frame. */
  function Stop(cut: Option<nat>, pending: bytes): nat { if cut.Some? then cut.value else |pending| }

  /** Moves whole frames out of the pending bytes, all of them unless it is cut short. */
  function Drain(v: View, size: nat, cut: Option<nat>): View
    requires size >= 1
  {
    var n := Stop(cut, v.pending);
    View(Rest(v.pending, size, n), v.frames + WholeFrames(v.pending, size, n))
  }

  /** A whole number of samples: `publish_chunk` drops a trailing odd byte. */
  function Trim(data: bytes): bytes { if |data| % 2 == 1 then data[..|data| - 1] else data }

  lemma WholePart(data: bytes)
    ensures Trim(data) == data[..|data| / 2 * 2]
    ensures Trim(data) == [] <==> |data| < 2
  {
  }

  /** What a flush adds before it drains: a byte to complete a sample, then a frame. */
  function Padding(n: nat, size: nat): nat {
    if n == 0 then 0
    else
      var even := n + n % 2;
      n % 2 + if even < size then size - even else 0
  }

  function Zeros(n: nat): (r: bytes)
    ensures |r| == n
  {
    seq(n, i => 0)
  }

  /** Completes the last sample, then the frame. */
  method PadQueue(queued: bytes, size: nat) returns (padded: bytes)
    ensures padded == queued + Zeros(Padding(|queued|, size))
  {
    padded := queued;
    if padded != [] {
      if |padded| % 2 == 1 {
        padded := padded + [0];
      }
      if 0 < |padded| < size {
        padded := padded + Zeros(size - |padded|);
      }
    }
  }

  /** What the publisher is asked to do; the resampler's output is given, frame by frame. A task that
      is cancelled hands out only some frames. `clear` takes no lock: when it comes between two frames
      of a publish, that is a publish cut short there, and then the clear. */
  datatype Op =
    | Publish(data: bytes, sameRate: bool, resampled: seq<bytes>, cut: Option<nat>)
    | Flush(resampled: seq<bytes>, cut: Option<nat>)
    | Clear

  /** The bytes an operation feeds in. */
  function Fed(op: Op): bytes {
    match op
    case Publish(data, sameRate, resampled, _) => if Trim(data) == [] then [] else if sameRate then Trim(data) else Flatten(resampled)
    case Flush(resampled, _) => Flatten(resampled)
    case Clear => []
  }

  function PaddingOf(op: Op, pending: nat, size: nat): nat {
    if op.Flush? then Padding(pending + |Fed(op)|, size) else 0
  }

  /** What one operation adds: its bytes and, for a flush, its padding. */
  function Added(op: Op, pending: nat, size: nat): bytes {
    Fed(op) + Zeros(PaddingOf(op, pending, size))
  }

  /** A chunk without a whole sample is ignored. */
  predicate Ignored(op: Op) { op.Publish? && Trim(op.data) == [] }

  function Step(v: View, op: Op, size: nat): View
    requires size >= 1
  {
    if op.Clear? then v.(pending := [])
    else if Ignored(op) then v
    else Drain(v.(pending := v.pending + Added(op, |v.pending|, size)), size, op.cut)
  }

  class Publisher {
    const size: nat
    var pending: bytes
    var turn: bytes                // published-rate PCM of the turn, for recording hooks
    var frames: seq<bytes>         // offered to the audio source, in order

    ghost predicate Valid()
      reads this
    {
      size % 2 == 0 && Framed(frames, size)
    }

    ghost function V(): View
      reads this
    {
      View(pending, frames)
    }

    constructor (rate: nat)
      ensures Valid() && V() == View([], []) && size == FrameBytes(rate)
      ensures size == 0 <==> rate < 100
    {
      FrameIsNonEmpty(rate);
      size := FrameBytes(rate);
      pending, turn, frames := [], [], [];
    }

    /** With empty frames the loop never ends by itself: there is always a frame to take out. */
    method DrainPending(cut: Option<nat>) returns (hangs: bool)
      requires Framed(frames, size)
      modifies this`pending, this`frames
      ensures hangs <==> size == 0 && cut.None?
      ensures Framed(frames, size)
      ensures size >= 1 ==> V() == Drain(old(V()), size, cut)
      ensures size == 0 ==> pending == old(pending)
    {
      if size == 0 {
        if cut.Some? {
          frames := frames + seq(cut.value, i => []);
        }
        return cut.None?;
      }
      var n: nat := if cut.Some? then cut.value else |pending|;   // never runs out when nothing cuts the drain short
      ghost var all: nat := n;
      while |pending| >= size && n > 0
        invariant Rest(pending, size, n) == Rest(old(pending), size, all) && Framed(frames, size)
        invariant frames + WholeFrames(pending, size, n) == old(frames) + WholeFrames(old(pending), size, all)
        invariant cut.None? ==> n >= |pending|
        decreases n
      {
        var frame := pending[..size];
        Assoc(frames, [frame], WholeFrames(pending[size..], size, n - 1));
        pending := pending[size..];
        frames := frames + [frame];
        n := n - 1;
      }
      assert frames + [] == frames;
      return false;
    }

    method PublishChunk(data: bytes, sameRate: bool, resampled: seq<bytes>, cut: Option<nat>) returns (hangs: bool)
      requires Valid()
      modifies this
      ensures hangs <==> size == 0 && Trim(data) != [] && cut.None?
      ensures Valid() && (size >= 1 ==> V() == Step(old(V()), Publish(data, sameRate, resampled, cut), size))
      ensures |data| < 2 ==> turn == old(turn)
      ensures |data| >= 2 ==> turn == old(turn) + if sameRate then data[..|data| / 2 * 2] else Flatten(resampled)
    {
      WholePart(data);
      var whole := Trim(data);
      if whole == [] {
        return false;
      }
      var fed := if sameRate then whole else Flatten(resampled);
      assert fed + Zeros(0) == fed;
      pending := pending + fed;
      turn := turn + fed;
      hangs := DrainPending(cut);
    }

    /** Completes a last sample and a last frame with zeros when less than a frame is queued. */
    method FlushAll(resampled: seq<bytes>, cut: Option<nat>) returns (hangs: bool)
      requires Valid()
      modifies this
      ensures hangs <==> size == 0 && old(pending) + Flatten(resampled) != [] && cut.None?
      ensures Valid() && (size >= 1 ==> V() == Step(old(V()), Flush(resampled, cut), size))
      ensures turn == if !hangs && cut.None? then [] else old(turn) + Flatten(resampled)
    {
      FlushQueue(pending, resampled, cut, size);
      var queued := pending + Flatten(resampled);
      turn := turn + Flatten(resampled);
      pending := PadQueue(queued, size);
      hangs := false;
      if queued != [] {
        hangs := DrainPending(cut);
      } else if size >= 1 {
        DrainNothing(V(), size, cut);
      }
      if cut.None? && !hangs {
        turn := [];
      }
    }

    /** Barge-in: what is queued is dropped, what was handed out stays. */
    method ClearAll()
      requires Valid()
      modifies this
      ensures Valid() && turn == [] && V() == old(V()).(pending := [])
      ensures size >= 1 ==> V() == Step(old(V()), Clear, size)
    {
      pending, turn := [], [];
    }
  }

  /** What a flush has queued when it drains. */
  lemma FlushQueue(pending: bytes, resampled: seq<bytes>, cut: Option<nat>, size: nat)
    ensures var queued := pending + Flatten(resampled);
            pending + Added(Flush(resampled, cut), |pending|, size) == queued + Zeros(Padding(|queued|, size))
  {
    Assoc(pending, Flatten(resampled), Zeros(Padding(|pending| + |Flatten(resampled)|, size)));
  }

  lemma DrainNothing(v: View, size: nat, cut: Option<nat>)
    requires size >= 1 && v.pending == []
    ensures Drain(v, size, cut) == v
  {
    assert v.frames + [] == v.frames;
  }

  // ---------------------------------------------------------------------------------------

  /** All bytes that were handed out or are still queued. */
  function Total(v: View): bytes { Flatten(v.frames) + v.pending }

  ghost predicate Framed(frames: seq<bytes>, size: nat) {
    forall f :: f in frames ==> |f| == size
  }

  /** A drain that is not cut short leaves the remainder of the division by the frame size. */
  lemma {:induction false} RestLength(pending: bytes, size: nat, n: nat)
    requires size >= 1 && n >= |pending|
    ensures |Rest(pending, size, n)| == |pending| % size < size
  {
    if |pending| >= size {
      RestLength(pending[size..], size, n - 1);
      ModuloStep(|pending|, size);
    } else {
      SmallModulo(|pending|, size);
    }
  }

  lemma {:induction false} FramesAreFramed(pending: bytes, size: nat, n: nat)
    requires size >= 1
    ensures Framed(WholeFrames(pending, size, n), size)
    decreases n
  {
    if n > 0 && |pending| >= size {
      FramesAreFramed(pending[size..], size, n - 1);
    }
  }

  lemma {:induction false} FramesAndRest(pending: bytes, size: nat, n: nat)
    requires size >= 1
    ensures Flatten(WholeFrames(pending, size, n)) + Rest(pending, size, n) == pending
    decreases n
  {
    if n == 0 || |pending| < size {
      Rejoined(pending, 0);
    } else {
      var frame, more := pending[..size], pending[size..];
      var frames, rest := WholeFrames(more, size, n - 1), Rest(more, size, n - 1);
      FramesAndRest(more, size, n - 1);
      FlattenCons(frame, frames);
      Assoc(frame, Flatten(frames), rest);
      Rejoined(pending, size);
    }
  }

  lemma Rejoined(b: bytes, n: nat)
    requires n <= |b|
    ensures b[..n] + b[n..] == b && [] + b == b
  {
  }

  lemma FlattenCons(x: bytes, parts: seq<bytes>)
    ensures Flatten([x] + parts) == x + Flatten(parts)
  {
    FlattenConcat([x], parts);
    FlattenSnoc([], x);
    assert [] + [x] == [x] && Flatten<byte>([]) == [];
  }

  /** Draining only moves bytes from the queue into whole frames, and unless it is cut short leaves
      less than a frame. */
  lemma DrainFacts(v: View, size: nat, cut: Option<nat>)
    requires size >= 1 && Framed(v.frames, size)
    ensures var d := Drain(v, size, cut);
            Total(d) == Total(v) && Framed(d.frames, size) && (cut.None? ==> |d.pending| == |v.pending| % size < size)
  {
    var n := Stop(cut, v.pending);
    if cut.None? {
      RestLength(v.pending, size, n);
    }
    FramesAreFramed(v.pending, size, n);
    FramesAndRest(v.pending, size, n);
    FlattenConcat(v.frames, WholeFrames(v.pending, size, n));
    Assoc(Flatten(v.frames), Flatten(WholeFrames(v.pending, size, n)), Rest(v.pending, size, n));
  }

  lemma SmallModulo(n: nat, m: nat)
    requires n < m
    ensures n % m == n
  {
  }

  function RunOps(v: View, ops: seq<Op>, size: nat): View
    requires size >= 1
  {
    if ops == [] then v else Step(RunOps(v, ops[..|ops| - 1], size), ops[|ops| - 1], size)
  }

  /** The bytes without the last `n` of them. */
  function DropLast(b: bytes, n: nat): bytes { if n <= |b| then b[..|b| - n] else [] }

  /** What went in, starting from `total`: each operation adds its bytes and padding at the end, and a
      clear takes away as many of the last bytes as were queued. */
  function Kept(v: View, ops: seq<Op>, size: nat): bytes
    requires size >= 1
  {
    if ops == [] then Total(v)
    else
      var front, op := ops[..|ops| - 1], ops[|ops| - 1];
      var queued := |RunOps(v, front, size).pending|;
      if op.Clear? then DropLast(Kept(v, front, size), queued) else Kept(v, front, size) + Added(op, queued, size)
  }

  /** One flush pads by less than a frame. */
  lemma PaddingIsShort(n: nat, size: nat)
    requires size >= 2 && size % 2 == 0
    ensures Padding(n, size) < size
    ensures Padding(n, size) % 2 == n % 2
  {
  }

  /** One operation adds exactly its bytes, or drops exactly what was queued. */
  lemma StepKeepsBytes(v: View, op: Op, size: nat)
    requires size >= 1 && Framed(v.frames, size)
    ensures var w := Step(v, op, size);
            && Framed(w.frames, size)
            && Total(w) == (if op.Clear? then DropLast(Total(v), |v.pending|) else Total(v) + Added(op, |v.pending|, size))
            && (!op.Clear? && !Ignored(op) && op.cut.None? ==> |w.pending| < size)
  {
    if op.Clear? {
      assert Flatten(v.frames) + [] == Total(v)[..|Flatten(v.frames)|];
    } else if Ignored(op) {
      assert Total(v) + ([] + Zeros(0)) == Total(v);
    } else {
      var added := Added(op, |v.pending|, size);
      DrainFacts(v.(pending := v.pending + added), size, op.cut);
      Assoc(Flatten(v.frames), v.pending, added);
    }
  }

  lemma {:induction false} RunConserves(v: View, ops: seq<Op>, size: nat)
    requires size >= 1 && Framed(v.frames, size)
    ensures Framed(RunOps(v, ops, size).frames, size)
    ensures Total(RunOps(v, ops, size)) == Kept(v, ops, size)
  {
    if ops != [] {
      var front, op := ops[..|ops| - 1], ops[|ops| - 1];
      RunConserves(v, front, size);
      StepKeepsBytes(RunOps(v, front, size), op, size);
    }
  }

  /** For any run of publishes, flushes and clears, cut short or not, from any state: the captured
      frames all have the exact frame size; frames and queue together are what went in, byte for
      byte, plus each flush's padding of less than a frame, without what was queued at a clear. */
  lemma RunKeepsBytes(v: View, ops: seq<Op>, size: nat)
    requires size >= 2 && size % 2 == 0 && Framed(v.frames, size)
    ensures Framed(RunOps(v, ops, size).frames, size)
    ensures Total(RunOps(v, ops, size)) == Kept(v, ops, size)
    ensures forall i :: 0 <= i < |ops| ==> PaddingOf(ops[i], |RunOps(v, ops[..i], size).pending|, size) < size
  {
    RunConserves(v, ops, size);
    forall i | 0 <= i < |ops| ensures PaddingOf(ops[i], |RunOps(v, ops[..i], size).pending|, size) < size {
      PaddingIsShort(|RunOps(v, ops[..i], size).pending| + |Fed(ops[i])|, size);
    }
  }

  /** After a flush that is not cut short nothing is left in the queue exactly when, before draining,
      less than a frame was queued or a whole number of frames (a last odd byte counting as two). */
  lemma FlushEmptiesExactlyWhen(v: View, resampled: seq<bytes>, size: nat)
    requires size >= 2 && size % 2 == 0
    ensures var n := |v.pending| + |Flatten(resampled)|;
            var even := n + n % 2;
            Step(v, Flush(resampled, None), size).pending == [] <==> even < size || even % size == 0
  {
    var op := Flush(resampled, None);
    var added := Added(op, |v.pending|, size);
    RestLength(v.pending + added, size, |v.pending + added|);
    assert |added| == |Flatten(resampled)| + Padding(|v.pending| + |Flatten(resampled)|, size);
    QueueLeft(|v.pending| + |Flatten(resampled)|, size);
  }

  /** At 48 kHz a flush of one sample more than a frame leaves that sample in the queue. */
  lemma FlushLeavesSample()
    ensures FrameBytes(48_000) == 960
    ensures Step(View([], []), Flush([Zeros(962)], None), 960).pending != []
  {
    assert [Zeros(962)][..0] == [];
    assert Flatten([Zeros(962)]) == [] + Zeros(962);
    FlushEmptiesExactlyWhen(View([], []), [Zeros(962)], 960);
  }

  lemma QueueLeft(n: nat, size: nat)
    requires size >= 2 && size % 2 == 0
    ensures var even := n + n % 2; (n + Padding(n, size)) % size == 0 <==> even < size || even % size == 0
  {
    if n == 0 {
      SmallModulo(0, size);
    } else if n + n % 2 < size {
      ModuloIs(size, size, 1, 0);
    }
  }

  // ---------------------------------------------------------------------------------------
  // End to end

  function Publishes(chunks: seq<bytes>): (ops: seq<Op>)
    ensures |ops| == |chunks|
  {
    seq(|chunks|, i requires 0 <= i < |chunks| => Publish(chunks[i], true, [], None))
  }

  /** Chunks of whole samples are published untrimmed. */
  lemma {:induction false} EvenChunksPass(v: View, chunks: seq<bytes>, size: nat)
    requires size >= 1 && forall c :: c in chunks ==> Even(c)
    ensures Kept(v, Publishes(chunks), size) == Total(v) + Flatten(chunks)
  {
    if chunks == [] {
      assert Total(v) + [] == Total(v);
    } else {
      var front, last := chunks[..|chunks| - 1], chunks[|chunks| - 1];
      EvenChunksPass(v, front, size);
      assert Publishes(chunks)[..|chunks| - 1] == Publishes(front);
      assert last in chunks && Even(last) && Fed(Publish(last, true, [], None)) == last;
      assert last + Zeros(0) == last;
      Assoc(Total(v), Flatten(front), last);
    }
  }

  /** No chunk is empty, so no chunks means no bytes. */
  lemma SomeChunkSomeByte(chunks: seq<bytes>)
    requires WholeSamples(chunks)
    ensures chunks == [] <==> Flatten(chunks) == []
  {
    if chunks != [] {
      assert chunks[|chunks| - 1] in chunks;
    }
  }

  method PublishAll(chunks: seq<bytes>, publisher: Publisher)
    requires publisher.Valid() && publisher.size >= 1
    modifies publisher
    ensures publisher.Valid() && publisher.V() == RunOps(old(publisher.V()), Publishes(chunks), publisher.size)
  {
    ghost var v := publisher.V();
    for i := 0 to |chunks|
      invariant publisher.Valid() && publisher.V() == RunOps(v, Publishes(chunks[..i]), publisher.size)
    {
      var ops := Publishes(chunks[..i + 1]);
      assert ops[..i] == Publishes(chunks[..i]) && ops[i] == Publish(chunks[i], true, [], None);
      var hangs := publisher.PublishChunk(chunks[i], true, [], None);
    }
    assert chunks[..|chunks|] == chunks;
  }

  /** However the body was split on the wire, a publisher at the synthesizer's rate hands out or
      still holds exactly the body, plus at most one zero byte. */
  method SpeakBody(blocks: seq<bytes>, publisher: Publisher) returns (hangs: bool)
    requires publisher.Valid()
    modifies publisher
    ensures hangs <==> publisher.size == 0 && Flatten(blocks) != []
    ensures publisher.Valid()
    ensures !hangs ==> Total(publisher.V()) == old(Total(publisher.V())) + (Flatten(blocks) + Completion(|Flatten(blocks)|))
  {
    var chunks := Reframe(blocks);
    SomeChunkSomeByte(chunks);
    hangs := false;
    ghost var v := publisher.V();
    if publisher.size >= 1 {
      PublishAll(chunks, publisher);
      RunConserves(v, Publishes(chunks), publisher.size);
      EvenChunksPass(v, chunks, publisher.size);
    } else if chunks != [] {
      assert chunks[0] in chunks;
      hangs := publisher.PublishChunk(chunks[0], true, [], None);
    } else {
      assert Total(v) + ([] + []) == Total(v);
    }
  }
}
