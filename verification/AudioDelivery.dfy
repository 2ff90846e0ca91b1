/** What the publisher hands out and holds, told from the chunks and the resampler's frames alone. */
module AudioDelivery {
  import opened Arith
  import opened Text
  import opened Bytes
  import opened AudioStream

  /** A publish of at least one sample. */
  predicate Sounds(op: Op) { op.Publish? && |op.data| >= 2 }

  predicate AtAnotherRate(op: Op) { Sounds(op) && !op.sameRate }

  predicate AtOwnRate(op: Op) { op.Publish? && op.sameRate }

  /** The resampler's frames of all publishes, in order. */
  function ResampledFrames(ops: seq<Op>): seq<bytes> {
    if ops == [] then []
    else ResampledFrames(ops[..|ops| - 1]) + if ops[|ops| - 1].Publish? then ops[|ops| - 1].resampled else []
  }

  /** Publishing at another rate adds the resampler's frames to what was handed out or is queued. */
  lemma AnotherRateAdds(v: View, op: Op, size: nat)
    requires size >= 1 && Framed(v.frames, size) && AtAnotherRate(op)
    ensures var w := Step(v, op, size);
            Framed(w.frames, size) && Flatten(w.frames) + w.pending == Flatten(v.frames) + v.pending + Flatten(op.resampled)
  {
    StepKeepsBytes(v, op, size);
    assert Flatten(op.resampled) + Zeros(0) == Flatten(op.resampled);
  }

  /** From any framed state, a run of publishes at another rate makes frames and queue together grow by
      exactly the resampler's frames, in order, wherever the tasks are cut short. */
  lemma {:induction false} ResampledSpeechIsDelivered(v: View, ops: seq<Op>, size: nat)
    requires size >= 1 && Framed(v.frames, size) && forall i :: 0 <= i < |ops| ==> AtAnotherRate(ops[i])
    ensures var w := RunOps(v, ops, size);
            && Framed(w.frames, size)
            && Flatten(w.frames) + w.pending == Flatten(v.frames) + v.pending + Flatten(ResampledFrames(ops))
  {
    if ops == [] {
      assert Flatten(v.frames) + v.pending + [] == Flatten(v.frames) + v.pending;
    } else {
      var front, op := ops[..|ops| - 1], ops[|ops| - 1];
      ResampledSpeechIsDelivered(v, front, size);
      AnotherRateAdds(RunOps(v, front, size), op, size);
      FlattenConcat(ResampledFrames(front), op.resampled);
      Assoc(Flatten(v.frames) + v.pending, Flatten(ResampledFrames(front)), Flatten(op.resampled));
    }
  }

  /** The chunks of all publishes without their odd last bytes. */
  function WholeChunks(ops: seq<Op>): seq<bytes> {
    if ops == [] then []
    else
      var op := ops[|ops| - 1];
      WholeChunks(ops[..|ops| - 1]) + if op.Publish? then [op.data[..|op.data| / 2 * 2]] else []
  }

  lemma OwnRateAdds(v: View, op: Op, size: nat)
    requires size >= 1 && Framed(v.frames, size) && AtOwnRate(op)
    ensures var w := Step(v, op, size);
            && Framed(w.frames, size)
            && Flatten(w.frames) + w.pending == Flatten(v.frames) + v.pending + op.data[..|op.data| / 2 * 2]
  {
    StepKeepsBytes(v, op, size);
    var whole := op.data[..|op.data| / 2 * 2];
    assert Trim(op.data) == whole && whole + Zeros(0) == whole;
    assert Added(op, |v.pending|, size) == whole;
  }

  /** At the publisher's own rate they grow by exactly the whole samples of the chunks. */
  lemma {:induction false} OwnSpeechIsDelivered(v: View, ops: seq<Op>, size: nat)
    requires size >= 1 && Framed(v.frames, size) && forall i :: 0 <= i < |ops| ==> AtOwnRate(ops[i])
    ensures var w := RunOps(v, ops, size);
            && Framed(w.frames, size)
            && Flatten(w.frames) + w.pending == Flatten(v.frames) + v.pending + Flatten(WholeChunks(ops))
  {
    if ops == [] {
      assert Flatten(v.frames) + v.pending + [] == Flatten(v.frames) + v.pending;
    } else {
      var front, op := ops[..|ops| - 1], ops[|ops| - 1];
      OwnSpeechIsDelivered(v, front, size);
      OwnRateAdds(RunOps(v, front, size), op, size);
      FlattenSnoc(WholeChunks(front), op.data[..|op.data| / 2 * 2]);
      Assoc(Flatten(v.frames) + v.pending, Flatten(WholeChunks(front)), op.data[..|op.data| / 2 * 2]);
    }
  }

  /** A chunk of less than a sample changes nothing. */
  lemma LessThanASampleIsIgnored(v: View, op: Op, size: nat)
    requires size >= 1 && op.Publish? && |op.data| < 2
    ensures Step(v, op, size) == v
  {
  }

  /** The number of zeros of a flush that finds `n` bytes: none on an empty queue; up to a frame when
      there is less than that; otherwise the one that completes a sample. */
  predicate ZerosOfFlush(n: nat, size: nat, zeros: nat) {
    if n == 0 then zeros == 0 else if n + n % 2 < size then n + zeros == size else zeros == n % 2
  }

  lemma PaddingIsZeros(n: nat, size: nat)
    requires size >= 2 && size % 2 == 0
    ensures ZerosOfFlush(n, size, |Zeros(Padding(n, size))|)
    ensures forall k :: 0 <= k < |Zeros(Padding(n, size))| ==> Zeros(Padding(n, size))[k] == 0
  {
  }

  predicate AllZero(b: bytes) { forall k :: 0 <= k < |b| ==> b[k] == 0 }

  lemma FlushAdds(op: Op, pending: nat, size: nat)
    requires op.Flush?
    ensures Added(op, pending, size) ==
            Flatten(op.resampled) + Zeros(Padding(pending + |Flatten(op.resampled)|, size))
  {
  }

  lemma FlushTail(op: Op, pending: nat, size: nat) returns (tail: bytes)
    requires size >= 2 && size % 2 == 0 && op.Flush?
    ensures Added(op, pending, size) == Flatten(op.resampled) + tail
    ensures AllZero(tail) && ZerosOfFlush(pending + |Flatten(op.resampled)|, size, |tail|)
  {
    FlushAdds(op, pending, size);
    PaddingIsZeros(pending + |Flatten(op.resampled)|, size);
    tail := Zeros(Padding(pending + |Flatten(op.resampled)|, size));
  }

  /** A flush adds the resampler's last frames and then nothing but zero bytes. */
  lemma FlushAddsZeros(v: View, op: Op, size: nat) returns (tail: bytes)
    requires size >= 2 && size % 2 == 0 && Framed(v.frames, size) && op.Flush?
    ensures var w := Step(v, op, size);
            && Framed(w.frames, size)
            && Flatten(w.frames) + w.pending == Flatten(v.frames) + v.pending + (Flatten(op.resampled) + tail)
    ensures AllZero(tail) && ZerosOfFlush(|v.pending| + |Flatten(op.resampled)|, size, |tail|)
  {
    StepKeepsBytes(v, op, size);
    tail := FlushTail(op, |v.pending|, size);
  }

  // ---------------------------------------------------------------------------------------
  // How far a drain gets

  /** The number of frames that a drain hands out of `all` whole ones. */
  function HandedOut(cut: Option<nat>, all: nat): nat {
    if cut.Some? && cut.value < all then cut.value else all
  }

  lemma FrameTimes(size: nat, k: nat)
    ensures (k + 1) * size == k * size + size
  {
  }

  lemma QuotientOfRest(n: nat, size: nat)
    requires 1 <= size <= n
    ensures n / size == (n - size) / size + 1
  {
    DivideStep(n - size, size);
  }

  lemma {:induction false} CountOfFrames(pending: bytes, size: nat, n: nat)
    requires size >= 1
    ensures |WholeFrames(pending, size, n)| == if n < |pending| / size then n else |pending| / size
    decreases n
  {
    if |pending| < size {
      SmallQuotient(|pending|, size);
    } else {
      QuotientOfRest(|pending|, size);
      if n > 0 {
        CountOfFrames(pending[size..], size, n - 1);
      }
    }
  }

  lemma {:induction false} FrameAt(pending: bytes, size: nat, n: nat, i: nat)
    requires size >= 1 && i < |WholeFrames(pending, size, n)|
    ensures i * size + size <= |pending| && WholeFrames(pending, size, n)[i] == pending[i * size..i * size + size]
    decreases n
  {
    if i > 0 {
      FrameAt(pending[size..], size, n - 1, i - 1);
      FrameTimes(size, i - 1);
    }
  }

  lemma QuotientFits(n: nat, size: nat)
    requires size >= 1
    ensures n / size <= n
  {
    MulMono(1, size, n / size);
    QuotientTimes(n, size);
  }

  /** A drain hands out the first frames of the queue, all the whole ones unless it is cut short before
      that, each at its place. */
  lemma DrainHandsOut(v: View, size: nat, cut: Option<nat>)
    requires size >= 1
    ensures var d, m := Drain(v, size, cut), HandedOut(cut, |v.pending| / size);
            && |d.frames| == |v.frames| + m && d.frames[..|v.frames|] == v.frames
            && forall i {:trigger d.frames[|v.frames| + i]} :: 0 <= i < m ==>
                 i * size + size <= |v.pending| && d.frames[|v.frames| + i] == v.pending[i * size..i * size + size]
  {
    var n := Stop(cut, v.pending);
    var frames := WholeFrames(v.pending, size, n);
    CountOfFrames(v.pending, size, n);
    QuotientFits(|v.pending|, size);
    forall i | 0 <= i < |frames| ensures i * size + size <= |v.pending| && frames[i] == v.pending[i * size..i * size + size] {
      FrameAt(v.pending, size, n, i);
    }
  }
}
