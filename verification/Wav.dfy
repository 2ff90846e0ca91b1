/** RIFF/WAVE printing and parsing, after IBM and Microsoft, "Multimedia Programming Interface
    and Data Specifications 1.0", sections "Resource Interchange File Format" and "Waveform
    Audio File Format (WAVE)". */
module Wav {
  import opened Text
  import opened Bytes

  const RIFF: bytes := [82, 73, 70, 70]
  const WAVE: bytes := [87, 65, 86, 69]
  const FMT: bytes := [102, 109, 116, 32]
  const DATA: bytes := [100, 97, 116, 97]

  /** The format chunk of 16-bit mono PCM. */
  function FormatBody(rate: nat): (r: bytes)
    ensures |r| == 16
  {
    U16(1) + U16(1) + U32(rate) + U32(rate * 2) + U16(2) + U16(16)
  }

  function Header(rate: nat, size: nat): (r: bytes)
    ensures |r| == 44
  {
    RIFF + U32(36 + size) + WAVE + FMT + U32(16) + FormatBody(rate) + DATA + U32(size)
  }

  /** The server's printer; packing a number that does not fit its field raises struct.error. */
  function PcmToWav(pcm: bytes, rate: nat): Option<bytes> {
    if 36 + |pcm| < TWO32 && rate * 2 < TWO32 then Some(Header(rate, |pcm|) + pcm) else None
  }

  // ---------------------------------------------------------------------------------------
  // Parsing

  datatype Extracted = Pcm(data: bytes) | MissingData

  /** The four bytes at `o` are `id`. */
  predicate IdAt(audio: bytes, o: nat, id: bytes)
    requires o + 4 <= |audio| && |id| == 4
  {
    audio[o] == id[0] && audio[o + 1] == id[1] && audio[o + 2] == id[2] && audio[o + 3] == id[3]
  }

  predicate IsWav(audio: bytes) { |audio| >= 12 && IdAt(audio, 0, RIFF) && IdAt(audio, 8, WAVE) }

  /** An identifier stands where the slice says. */
  lemma IdIsSlice(audio: bytes, o: nat, id: bytes)
    requires o + 4 <= |audio| && |id| == 4
    ensures IdAt(audio, o, id) <==> audio[o..o + 4] == id
  {
    assert audio[o..o + 4] == [audio[o], audio[o + 1], audio[o + 2], audio[o + 3]];
    assert id == [id[0], id[1], id[2], id[3]];
  }

  /** The bytes that are read as a file: those that begin with "RIFF", four bytes and "WAVE". All
      others are raw samples. */
  predicate BeginsAsFile(audio: bytes) {
    |audio| >= 12 && audio[..4] == [82, 73, 70, 70] && audio[8..12] == [87, 65, 86, 69]
  }

  lemma IsWavExactlyWhen(audio: bytes)
    ensures IsWav(audio) <==> BeginsAsFile(audio)
  {
    if |audio| >= 12 {
      IdIsSlice(audio, 0, RIFF);
      IdIsSlice(audio, 8, WAVE);
    }
  }

  function Min(a: int, b: int): int { if a < b then a else b }

  /** The chunk walk from `offset` on. */
  function Walk(audio: bytes, offset: nat): Extracted
    decreases |audio| - offset
  {
    if offset + 8 > |audio| then MissingData
    else
      var size, body := U32At(audio, offset + 4), offset + 8;
      if IdAt(audio, offset, DATA) then Pcm(audio[body..Min(body + size, |audio|)])
      else Walk(audio, body + size + size % 2)
  }

  /** Terminates on every byte string; raw bytes pass through. */
  method ExtractPcm(audio: bytes) returns (r: Extracted)
    ensures r == if BeginsAsFile(audio) then Walk(audio, 12) else Pcm(audio)
  {
    IsWavExactlyWhen(audio);
    if |audio| >= 12 && IdAt(audio, 0, RIFF) && IdAt(audio, 8, WAVE) {
      var offset := 12;
      while offset + 8 <= |audio|
        invariant offset >= 12 && Walk(audio, offset) == Walk(audio, 12)
        decreases |audio| - offset
      {
        var isData := IdAt(audio, offset, DATA);
        var size := U32At(audio, offset + 4);
        offset := offset + 8;
        if isData {
          return Pcm(audio[offset..Min(offset + size, |audio|)]);
        }
        offset := offset + size + size % 2;
      }
      return MissingData;
    }
    return Pcm(audio);
  }

  /** Where the chunk after the one at `o` begins. */
  function NextChunk(audio: bytes, o: nat): nat
    requires o + 8 <= |audio|
  {
    var size := U32At(audio, o + 4);
    o + 8 + size + size % 2
  }

  /** Chunk headers, each where the one before it says, of which only the last is a data header. */
  predicate HeaderChain(audio: bytes, path: seq<nat>) {
    && path != []
    && (forall i :: 0 <= i < |path| ==> path[i] + 8 <= |audio|)
    && (forall i :: 0 <= i < |path| - 1 ==> !IdAt(audio, path[i], DATA) && path[i + 1] == NextChunk(audio, path[i]))
    && IdAt(audio, path[|path| - 1], DATA)
  }

  /** Along a chain the walk returns the data of its last header, as far as the file goes. */
  lemma {:induction false} ChainIsWalked(audio: bytes, path: seq<nat>)
    requires HeaderChain(audio, path)
    ensures var o := path[|path| - 1];
            Walk(audio, path[0]) == Pcm(audio[o + 8..Min(o + 8 + U32At(audio, o + 4), |audio|)])
    decreases |path|
  {
    if |path| > 1 {
      var rest := path[1..];
      ChainTail(audio, path);
      ChainIsWalked(audio, rest);
      WalkStep(audio, path[0], U32At(audio, path[0] + 4), path[1]);
      assert rest[|rest| - 1] == path[|path| - 1];
    }
  }

  lemma ChainTail(audio: bytes, path: seq<nat>)
    requires HeaderChain(audio, path) && |path| > 1
    ensures HeaderChain(audio, path[1..])
  {
  }

  lemma {:induction false} WalkIsChain(audio: bytes, offset: nat) returns (path: seq<nat>)
    requires Walk(audio, offset).Pcm?
    ensures HeaderChain(audio, path) && path[0] == offset
    decreases |audio| - offset
  {
    path := [offset];
    if !IdAt(audio, offset, DATA) {
      var rest := WalkIsChain(audio, NextChunk(audio, offset));
      path := [offset] + rest;
    }
  }

  /** The walk finds data exactly when a chain of headers leads from the offset to a data header;
      otherwise the file has no data chunk. */
  lemma DataExactlyWhenChained(audio: bytes, offset: nat)
    ensures Walk(audio, offset).Pcm? <==> exists path :: HeaderChain(audio, path) && path[0] == offset
  {
    if Walk(audio, offset).Pcm? {
      var path := WalkIsChain(audio, offset);
    }
    forall path | HeaderChain(audio, path) && path[0] == offset ensures Walk(audio, offset).Pcm? {
      ChainIsWalked(audio, path);
    }
  }

  // ---------------------------------------------------------------------------------------
  // Files made of chunks

  datatype Chunk = Chunk(id: bytes, body: bytes)

  predicate WellFormed(c: Chunk) { |c.id| == 4 && |c.body| < TWO32 }

  /** A chunk with its size, padded to an even length with an arbitrary byte. */
  function Print(c: Chunk, pad: byte): (r: bytes)
    requires WellFormed(c)
    ensures |r| == 8 + |c.body| + |c.body| % 2
  {
    c.id + U32(|c.body|) + c.body + if |c.body| % 2 == 1 then [pad] else []
  }

  predicate Skippable(cs: seq<Chunk>) {
    forall i :: 0 <= i < |cs| ==> WellFormed(cs[i]) && cs[i].id != DATA
  }

  function PrintAll(cs: seq<Chunk>, pad: byte): bytes
    requires Skippable(cs)
  {
    if cs == [] then [] else Print(cs[0], pad) + PrintAll(cs[1..], pad)
  }

  lemma ReadChunk(audio: bytes, offset: nat, c: Chunk, rest: bytes)
    requires WellFormed(c) && offset <= |audio| && audio[offset..] == c.id + U32(|c.body|) + rest
    ensures offset + 8 <= |audio|
    ensures IdAt(audio, offset, c.id) && U32At(audio, offset + 4) == |c.body|
    ensures audio[offset + 8..] == rest
  {
    HeadFields(audio, offset, c.id, U32(|c.body|), rest);
    SmallU32RoundTrip(|c.body|);
  }

  lemma HeadFields(audio: bytes, offset: nat, id: bytes, size: bytes, rest: bytes)
    requires |id| == 4 && |size| == 4 && offset <= |audio| && audio[offset..] == id + size + rest
    ensures offset + 8 <= |audio|
    ensures IdAt(audio, offset, id) && U32At(audio, offset + 4) == U32At(size, 0)
    ensures audio[offset + 8..] == rest
  {
    var tail := audio[offset..];
    assert forall k :: 0 <= k < 4 ==> audio[offset + k] == tail[k] == id[k];
    assert forall k :: 0 <= k < 4 ==> audio[offset + 4 + k] == tail[4 + k] == size[k];
    DropDrop(audio, offset, 8);
  }

  lemma PrintSplits(c: Chunk, pad: byte, rest: bytes)
    requires WellFormed(c)
    ensures Print(c, pad) + rest == c.id + U32(|c.body|) + (c.body + (if |c.body| % 2 == 1 then [pad] else []) + rest)
  {
  }

  /** Where a printed chunk ends, and what its head says. */
  lemma ReadPrinted(audio: bytes, offset: nat, c: Chunk, pad: byte, rest: bytes)
    requires WellFormed(c) && offset <= |audio| && audio[offset..] == Print(c, pad) + rest
    ensures var next := offset + |Print(c, pad)|;
            next <= |audio| && audio[next..] == rest
    ensures offset + 8 <= |audio|
    ensures IdAt(audio, offset, c.id) && U32At(audio, offset + 4) == |c.body|
  {
    PrintSplits(c, pad, rest);
    ReadChunk(audio, offset, c, c.body + (if |c.body| % 2 == 1 then [pad] else []) + rest);
    DropPrefix(Print(c, pad), rest);
    DropDrop(audio, offset, |Print(c, pad)|);
  }

  lemma OtherId(audio: bytes, offset: nat, id: bytes)
    requires offset + 4 <= |audio| && |id| == 4 && IdAt(audio, offset, id) && id != DATA
    ensures !IdAt(audio, offset, DATA)
  {
    assert id == [id[0], id[1], id[2], id[3]];
  }

  lemma WalkStep(audio: bytes, offset: nat, size: nat, next: nat)
    requires offset + 8 <= |audio| && !IdAt(audio, offset, DATA)
    requires size == U32At(audio, offset + 4) && next == offset + 8 + size + size % 2
    ensures Walk(audio, offset) == Walk(audio, next)
  {
  }

  lemma DataAt(audio: bytes, offset: nat, data: bytes, rest: bytes)
    requires |data| < TWO32 && offset <= |audio| && audio[offset..] == DATA + U32(|data|) + (data + rest)
    ensures Walk(audio, offset) == Pcm(data)
  {
    ReadChunk(audio, offset, Chunk(DATA, data), data + rest);
    DropPrefix(data, rest);
    assert audio[offset + 8..offset + 8 + |data|] == audio[offset + 8..][..|data|];
  }

  lemma PrintAllSplits(cs: seq<Chunk>, pad: byte, tail: bytes)
    requires Skippable(cs) && cs != []
    ensures Skippable(cs[1..]) && PrintAll(cs, pad) + tail == Print(cs[0], pad) + (PrintAll(cs[1..], pad) + tail)
  {
  }

  /** Any list of padded chunks before the data chunk is skipped, and anything may follow it. */
  lemma {:induction false} WalkSkipsChunks(audio: bytes, offset: nat, cs: seq<Chunk>, pad: byte, data: bytes, rest: bytes)
    requires Skippable(cs) && |data| < TWO32 && offset <= |audio|
    requires audio[offset..] == PrintAll(cs, pad) + (DATA + U32(|data|) + (data + rest))
    ensures Walk(audio, offset) == Pcm(data)
    decreases |cs|
  {
    var tail := DATA + U32(|data|) + (data + rest);
    if cs == [] {
      assert PrintAll(cs, pad) + tail == tail;
      DataAt(audio, offset, data, rest);
    } else {
      PrintAllSplits(cs, pad, tail);
      ReadPrinted(audio, offset, cs[0], pad, PrintAll(cs[1..], pad) + tail);
      var next := offset + |Print(cs[0], pad)|;
      assert !IdAt(audio, offset, DATA) by { OtherId(audio, offset, cs[0].id); }
      WalkStep(audio, offset, |cs[0].body|, next);
      WalkSkipsChunks(audio, next, cs[1..], pad, data, rest);
    }
  }

  lemma FileHead(size: bytes, body: bytes)
    requires |size| == 4
    ensures var file := RIFF + size + WAVE + body; IsWav(file) && file[12..] == body
  {
    var file := RIFF + size + WAVE + body;
    assert file[..12] == RIFF + size + WAVE;
  }

  /** Parsing undoes printing, for every file of padded chunks with a data chunk. */
  lemma ParseUndoesPrint(size: nat, cs: seq<Chunk>, pad: byte, data: bytes, rest: bytes)
    requires Skippable(cs) && |data| < TWO32
    ensures var file := RIFF + U32(size) + WAVE + (PrintAll(cs, pad) + (DATA + U32(|data|) + (data + rest)));
            IsWav(file) && Walk(file, 12) == Pcm(data)
  {
    var body := PrintAll(cs, pad) + (DATA + U32(|data|) + (data + rest));
    var file := RIFF + U32(size) + WAVE + body;
    FileHead(U32(size), body);
    WalkSkipsChunks(file, 12, cs, pad, data, rest);
  }

  /** The header is one format chunk and the start of the data chunk. */
  lemma HeaderIsChunks(rate: nat, pcm: bytes)
    ensures Skippable([Chunk(FMT, FormatBody(rate))])
    ensures Header(rate, |pcm|) + pcm == RIFF + U32(36 + |pcm|) + WAVE
              + (PrintAll([Chunk(FMT, FormatBody(rate))], 0) + (DATA + U32(|pcm|) + (pcm + [])))
  {
    var c := Chunk(FMT, FormatBody(rate));
    assert [c][1..] == [];
    assert PrintAll([c], 0) == Print(c, 0) == FMT + U32(16) + FormatBody(rate);
  }

  /** The server's printer round trips, exactly when it does not raise. */
  lemma ServerRoundTrip(pcm: bytes, rate: nat)
    ensures PcmToWav(pcm, rate).Some? <==> |pcm| < TWO32 - 36 && rate < TWO32 / 2
    ensures PcmToWav(pcm, rate).Some? ==>
              IsWav(PcmToWav(pcm, rate).value) && Walk(PcmToWav(pcm, rate).value, 12) == Pcm(pcm)
  {
    if PcmToWav(pcm, rate).Some? {
      HeaderIsChunks(rate, pcm);
      ParseUndoesPrint(36 + |pcm|, [Chunk(FMT, FormatBody(rate))], 0, pcm, []);
    }
  }

  // ---------------------------------------------------------------------------------------
  // The canonical file, field by field

  /** A 44-byte header with its fields at their offsets, then the samples. */
  predicate Layout(file: bytes, rate: nat, pcm: bytes) {
    && |file| == 44 + |pcm|
    && IsWav(file) && U32At(file, 4) == (36 + |pcm|) % TWO32
    && IdAt(file, 12, FMT) && U32At(file, 16) == 16
    && U16At(file, 20) == 1 && U16At(file, 22) == 1                                  // PCM, mono
    && U32At(file, 24) == rate % TWO32 && U32At(file, 28) == rate * 2 % TWO32        // rate, bytes per second
    && U16At(file, 32) == 2 && U16At(file, 34) == 16                                 // block, bits per sample
    && IdAt(file, 36, DATA) && U32At(file, 40) == |pcm| % TWO32
    && file[44..] == pcm
  }

  /** What the parser returns for such a file: as many samples as the size field says. */
  lemma LayoutParses(file: bytes, rate: nat, pcm: bytes)
    requires Layout(file, rate, pcm)
    ensures IsWav(file) && Walk(file, 12) == Pcm(pcm[..|pcm| % TWO32])
  {
    var size := |pcm| % TWO32;
    OtherId(file, 12, FMT);
    WalkStep(file, 12, 16, 36);
    DataIs(file, size);
    SliceOfRest(file, 44, size);
  }

  lemma DataIs(file: bytes, size: nat)
    requires 44 + size <= |file| && IdAt(file, 36, DATA) && U32At(file, 40) == size
    ensures Walk(file, 36) == Pcm(file[44..44 + size])
  {
  }

  lemma SliceOfRest(b: bytes, o: nat, n: nat)
    requires o + n <= |b|
    ensures b[o..o + n] == b[o..][..n]
  {
  }

  /** Reads the fields of a header back from their concatenation. */
  lemma LayoutOfFields(riff: bytes, size: bytes, wave: bytes, fmt: bytes, f16: bytes, body: bytes, data: bytes, n: bytes, pcm: bytes)
    requires |riff| == |size| == |wave| == |fmt| == |f16| == |data| == |n| == 4 && |body| == 16
    ensures var file := riff + size + wave + fmt + f16 + body + data + n + pcm;
            && |file| == 44 + |pcm| && file[44..] == pcm
            && IdAt(file, 0, riff) && U32At(file, 4) == U32At(size, 0) && IdAt(file, 8, wave) && IdAt(file, 12, fmt)
            && U32At(file, 16) == U32At(f16, 0) && IdAt(file, 36, data) && U32At(file, 40) == U32At(n, 0)
            && U16At(file, 20) == U16At(body, 0) && U16At(file, 22) == U16At(body, 2)
            && U32At(file, 24) == U32At(body, 4) && U32At(file, 28) == U32At(body, 8)
            && U16At(file, 32) == U16At(body, 12) && U16At(file, 34) == U16At(body, 14)
  {
  }

  lemma FormatFields(rate: nat)
    ensures var body := FormatBody(rate);
            && U16At(body, 0) == 1 && U16At(body, 2) == 1 && U16At(body, 12) == 2 && U16At(body, 14) == 16
            && U32At(body, 4) == U32At(U32(rate), 0) && U32At(body, 8) == U32At(U32(rate * 2), 0)
  {
    U16RoundTrip(1);
    U16RoundTrip(2);
    U16RoundTrip(16);
  }

  /** The server's printer puts every field where the format wants it. */
  lemma ServerLayout(pcm: bytes, rate: nat)
    requires PcmToWav(pcm, rate).Some?
    ensures Layout(PcmToWav(pcm, rate).value, rate, pcm)
  {
    LayoutOfFields(RIFF, U32(36 + |pcm|), WAVE, FMT, U32(16), FormatBody(rate), DATA, U32(|pcm|), pcm);
    FormatFields(rate);
    U32RoundTrip(36 + |pcm|);
    U32RoundTrip(16);
    U32RoundTrip(rate);
    U32RoundTrip(rate * 2);
    U32RoundTrip(|pcm|);
  }
}
