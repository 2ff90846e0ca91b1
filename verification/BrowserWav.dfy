/** The browser's recorder: merging sample blocks and encoding them as a WAV file. Samples are
    exact reals; a 24-bit significand times a 15-bit factor is exact in double precision. */
module BrowserWav {
  import opened Text
  import opened Bytes
  import opened Wav

  function Truncate(x: real): int {
    if x >= 0.0 then x.Floor else -((-x).Floor)
  }

  /** Clamp to [-1, 1], scale asymmetrically, and drop the fraction. */
  function Quantize(x: real): int16 {
    var s := if x > 1.0 then 1.0 else if x < -1.0 then -1.0 else x;
    Truncate(if s < 0.0 then s * 32768.0 else s * 32767.0)
  }

  function QuantizeAll(samples: seq<real>): (r: seq<int16>)
    ensures |r| == |samples| && forall i :: 0 <= i < |samples| ==> r[i] == Quantize(samples[i])
  {
    seq(|samples|, i requires 0 <= i < |samples| => Quantize(samples[i]))
  }

  /** Quantizing keeps the order of samples. */
  lemma QuantizeIsMonotone(x: real, y: real)
    requires x <= y
    ensures Quantize(x) <= Quantize(y)
    ensures Quantize(0.0) == 0 && (x >= 1.0 ==> Quantize(x) == 32767) && (y <= -1.0 ==> Quantize(y) == -32768)
  {
  }

  /** Between the extremes, the multiple of 32767, or of 32768 below zero, without its fraction. */
  lemma QuantizeExactly(x: real)
    ensures 0.0 <= x <= 1.0 ==> Quantize(x) as real <= x * 32767.0 < Quantize(x) as real + 1.0
    ensures -1.0 <= x <= 0.0 ==> Quantize(x) as real - 1.0 < x * 32768.0 <= Quantize(x) as real
    ensures x > 1.0 ==> Quantize(x) == 32767
    ensures x < -1.0 ==> Quantize(x) == -32768
  {
  }

  lemma FlattenLength<T>(parts: seq<seq<T>>, n: nat)
    requires n <= |parts|
    ensures |Flatten(parts[..n])| <= |Flatten(parts)|
    decreases |parts|
  {
    if n < |parts| {
      var front := parts[..|parts| - 1];
      FlattenLength(front, n);
      assert front[..n] == parts[..n];
    } else {
      assert parts[..n] == parts;
    }
  }

  /** `merged.set(chunk, offset)`. */
  method CopyInto(merged: array<real>, offset: nat, chunk: seq<real>)
    requires offset + |chunk| <= merged.Length
    modifies merged
    ensures merged[..offset + |chunk|] == old(merged[..offset]) + chunk
  {
    forall k | 0 <= k < |chunk| {
      merged[offset + k] := chunk[k];
    }
  }

  method MergeFloat32(chunks: seq<seq<real>>) returns (merged: array<real>)
    ensures fresh(merged) && merged[..] == Flatten(chunks)
  {
    var total := 0;
    for i := 0 to |chunks|
      invariant total == |Flatten(chunks[..i])|
    {
      FlattenTake(chunks, i);
      total := total + |chunks[i]|;
    }
    assert chunks[..|chunks|] == chunks;
    merged := new real[total];
    var offset := 0;
    for i := 0 to |chunks|
      invariant offset == |Flatten(chunks[..i])| <= total
      invariant merged[..offset] == Flatten(chunks[..i])
    {
      FlattenTake(chunks, i);
      FlattenLength(chunks, i + 1);
      CopyInto(merged, offset, chunks[i]);
      offset := offset + |chunks[i]|;
    }
    assert merged[..total] == merged[..];
  }

  /** Writes `b` at `off`, and nothing else. */
  method Put(buffer: array<byte>, off: nat, b: bytes)
    requires off + |b| <= buffer.Length
    modifies buffer
    ensures forall k :: 0 <= k < |b| ==> buffer[off + k] == b[k]
    ensures forall k :: 0 <= k < buffer.Length && !(off <= k < off + |b|) ==> buffer[k] == old(buffer[k])
  {
    forall k | 0 <= k < |b| {
      buffer[off + k] := b[k];
    }
  }

  /** `view.setUint32(off, n, true)`. */
  method Put32(buffer: array<byte>, off: nat, n: nat)
    requires off + 4 <= buffer.Length
    modifies buffer
    ensures U32At(buffer[..], off) == n % TWO32
    ensures forall k :: 0 <= k < buffer.Length && !(off <= k < off + 4) ==> buffer[k] == old(buffer[k])
  {
    var b := U32(n);
    buffer[off], buffer[off + 1], buffer[off + 2], buffer[off + 3] := b[0], b[1], b[2], b[3];
    U32RoundTrip(n);
  }

  method Put16(buffer: array<byte>, off: nat, n: nat)
    requires off + 2 <= buffer.Length && n < 65536
    modifies buffer
    ensures U16At(buffer[..], off) == n
    ensures forall k :: 0 <= k < buffer.Length && !(off <= k < off + 2) ==> buffer[k] == old(buffer[k])
  {
    var b := U16(n);
    buffer[off], buffer[off + 1] := b[0], b[1];
  }

  method PutId(buffer: array<byte>, off: nat, id: bytes)
    requires off + 4 <= buffer.Length && |id| == 4
    modifies buffer
    ensures IdAt(buffer[..], off, id)
    ensures forall k :: 0 <= k < buffer.Length && !(off <= k < off + 4) ==> buffer[k] == old(buffer[k])
  {
    buffer[off], buffer[off + 1], buffer[off + 2], buffer[off + 3] := id[0], id[1], id[2], id[3];
  }

  method WriteRiff(buffer: array<byte>, dataSize: nat)
    requires buffer.Length >= 44
    modifies buffer
    ensures IsWav(buffer[..]) && U32At(buffer[..], 4) == (36 + dataSize) % TWO32
    ensures forall k :: 12 <= k < buffer.Length ==> buffer[k] == old(buffer[k])
  {
    PutId(buffer, 0, RIFF);
    Put32(buffer, 4, 36 + dataSize);
    PutId(buffer, 8, WAVE);
  }

  method WriteFormat(buffer: array<byte>, rate: nat)
    requires buffer.Length >= 44
    modifies buffer
    ensures IdAt(buffer[..], 12, FMT) && U32At(buffer[..], 16) == 16
    ensures U16At(buffer[..], 20) == 1 && U16At(buffer[..], 22) == 1
    ensures U32At(buffer[..], 24) == rate % TWO32 && U32At(buffer[..], 28) == rate * 2 % TWO32
    ensures U16At(buffer[..], 32) == 2 && U16At(buffer[..], 34) == 16
    ensures forall k :: 0 <= k < buffer.Length && !(12 <= k < 36) ==> buffer[k] == old(buffer[k])
  {
    PutId(buffer, 12, FMT);
    Put32(buffer, 16, 16);
    Put16(buffer, 20, 1);
    Put16(buffer, 22, 1);
    Put32(buffer, 24, rate);
    Put32(buffer, 28, rate * 2);
    Put16(buffer, 32, 2);
    Put16(buffer, 34, 16);
  }

  /** The file the browser uploads; 32-bit fields wrap. */
  method EncodeWav(samples: seq<real>, rate: nat) returns (buffer: array<byte>)
    ensures Layout(buffer[..], rate, Pack(QuantizeAll(samples)))
  {
    var quantized: seq<int16> := [];
    for i := 0 to |samples|
      invariant quantized == QuantizeAll(samples[..i])
    {
      quantized := quantized + [Quantize(samples[i])];
    }
    assert samples[..|samples|] == samples;
    buffer := WriteFile(Pack(quantized), rate);
  }

  /** The data chunk, behind a header that stays as it was. */
  method WriteData(buffer: array<byte>, pcm: bytes)
    requires buffer.Length == 44 + |pcm|
    modifies buffer
    ensures IdAt(buffer[..], 36, DATA) && U32At(buffer[..], 40) == |pcm| % TWO32 && buffer[..][44..] == pcm
    ensures forall k :: 0 <= k < 36 ==> buffer[k] == old(buffer[k])
  {
    PutId(buffer, 36, DATA);
    Put32(buffer, 40, |pcm|);
    Put(buffer, 44, pcm);
  }

  method WriteFile(pcm: bytes, rate: nat) returns (buffer: array<byte>)
    ensures Layout(buffer[..], rate, pcm)
  {
    buffer := new byte[44 + |pcm|];
    WriteRiff(buffer, |pcm|);
    WriteFormat(buffer, rate);
    WriteData(buffer, pcm);
  }

  /** The server reads back the bytes the browser wrote, exactly when their number fits the field. */
  lemma BrowserRoundTrip(file: bytes, rate: nat, pcm: bytes)
    requires Layout(file, rate, pcm)
    ensures IsWav(file) && (Walk(file, 12) == Pcm(pcm) <==> |pcm| < TWO32)
  {
    LayoutParses(file, rate, pcm);
    if |pcm| < TWO32 {
      assert pcm[..|pcm|] == pcm;
    } else {
      assert |pcm[..|pcm| % TWO32]| < |pcm|;
    }
  }

  /** A byte count of whole samples, cut to 32 bits. */
  lemma CutSize(n: nat)
    ensures 2 * n % TWO32 % 2 == 0
    ensures 2 * n % TWO32 == 2 * n <==> n < TWO32 / 2
    ensures 2 * n % TWO32 <= 2 * n
  {
    var half := n % 0x8000_0000;
    var q := n / 0x8000_0000;
    assert n == 0x8000_0000 * q + half;
    assert 2 * n == 0x1_0000_0000 * q + 2 * half;
    assert 2 * n % 0x1_0000_0000 == 2 * half;
    assert q == 0 <==> n < 0x8000_0000;
  }

  lemma CutSamples(samples: seq<int16>)
    ensures var size := 2 * |samples| % TWO32;
            && size % 2 == 0 && size <= |Pack(samples)|
            && (Unpack(Pack(samples)[..size]) == samples <==> |samples| < TWO32 / 2)
  {
    var pcm, size := Pack(samples), 2 * |samples| % TWO32;
    CutSize(|samples|);
    if |samples| < TWO32 / 2 {
      assert pcm[..size] == pcm;
      PackRoundTrip(samples);
    } else {
      assert |Unpack(pcm[..size])| < |samples|;
    }
  }

  /** From microphone to server: unpacking what the server extracts gives the quantized samples,
      exactly when there are fewer than 2^31 of them. */
  lemma SamplesRoundTrip(file: bytes, rate: nat, samples: seq<real>)
    requires Layout(file, rate, Pack(QuantizeAll(samples)))
    ensures IsWav(file) && Walk(file, 12).Pcm? && |Walk(file, 12).data| % 2 == 0
    ensures Unpack(Walk(file, 12).data) == QuantizeAll(samples) <==> |samples| < TWO32 / 2
  {
    LayoutParses(file, rate, Pack(QuantizeAll(samples)));
    CutSamples(QuantizeAll(samples));
  }
}
