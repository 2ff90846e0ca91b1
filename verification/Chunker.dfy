/** Splitting a document into overlapping windows, and storing the chunks. */
module Chunker {
  import opened Text

  datatype Config = Config(chunkSize: int, chunkOverlap: int)

  datatype RawChunk = RawChunk(content: string, chunkIndex: nat, tokenCount: nat, heading: Option<string>)

  datatype Window = Window(start: nat, end: nat)

  function Size(cfg: Config): nat { if cfg.chunkSize > 64 then cfg.chunkSize else 64 }

  function Overlap(cfg: Config): int {
    if cfg.chunkOverlap < Size(cfg) / 2 then cfg.chunkOverlap else Size(cfg) / 2
  }

  /** `text.rfind(" ", lo, hi)`: the last space in the range, or -1. */
  function RFindSpace(text: string, lo: nat, hi: nat): (r: int)
    requires lo <= hi <= |text|
    ensures r == -1 || lo <= r < hi
    decreases |text|, hi
  {
    if lo == hi then -1 else if text[hi - 1] == ' ' then hi - 1 else RFindSpace(text, lo, hi - 1)
  }

  lemma {:induction false} RFindSpaceIsLast(text: string, lo: nat, hi: nat)
    requires lo <= hi <= |text|
    ensures var r := RFindSpace(text, lo, hi);
            (r >= 0 ==> text[r] == ' ') && forall i :: lo <= i < hi && r < i ==> text[i] != ' '
    decreases hi
  {
    if lo < hi && text[hi - 1] != ' ' {
      RFindSpaceIsLast(text, lo, hi - 1);
    }
  }

  /** Where the window that begins at `start` ends: at a space in its second half if it has one. */
  function WindowEnd(text: string, size: nat, start: nat): (end: nat)
    requires start < |text| && size >= 64
    ensures start < end <= |text| && end <= start + size
    ensures end < |text| ==> end > start + size / 2
  {
    var end := if start + size < |text| then start + size else |text|;
    if end < |text| then
      var splitAt := RFindSpace(text, start, end);
      if splitAt > start + size / 2 then splitAt else end
    else end
  }

  function NextStart(end: nat, overlap: int, start: nat): (next: nat)
    ensures next > start
  {
    if end - overlap > start + 1 then end - overlap else start + 1
  }

  /** What every cutting rule guarantees: progress, at most `size`, and more than half of it
      unless the text ends. */
  ghost predicate Cuts(n: nat, size: nat, endOf: nat -> nat) {
    forall s :: 0 <= s < n ==>
      s < endOf(s) <= n && endOf(s) <= s + size && (endOf(s) < n ==> endOf(s) > s + size / 2)
  }

  function Cutter(text: string, size: nat): (f: nat -> nat)
    requires size >= 64
    ensures Cuts(|text|, size, f) && forall s :: 0 <= s < |text| ==> f(s) == WindowEnd(text, size, s)
  {
    (s: nat) => if s < |text| then WindowEnd(text, size, s) else s
  }

  /** The windows over a text of length `n`, from `start` on. */
  function Windows(n: nat, endOf: nat -> nat, overlap: int, start: nat): (ws: seq<Window>)
    decreases n - start
  {
    if start >= n then []
    else
      var end := endOf(start);
      [Window(start, end)] + if end >= n then [] else Windows(n, endOf, overlap, NextStart(end, overlap, start))
  }

  /** The windows of a document. */
  function WindowsOf(text: string, cfg: Config): seq<Window> {
    Windows(|text|, Cutter(text, Size(cfg)), Overlap(cfg), 0)
  }

  /** Python's `text[lo:hi]`, which never fails. */
  function Slice(text: string, w: Window): string {
    if w.start <= w.end <= |text| then text[w.start..w.end]
    else if w.start <= |text| < w.end then text[w.start..] else []
  }

  /** The stripped text of every window. */
  function Contents(text: string): Window -> string {
    w => Strip(Slice(text, w))
  }

  function ChunkOf(content: string, index: nat, heading: Option<string>): RawChunk {
    RawChunk(content, index, if |content| / 4 > 1 then |content| / 4 else 1, heading)
  }

  /** The chunks of a list of windows, numbered from `index`; blank windows give none. */
  function Chunks(contents: Window -> string, ws: seq<Window>, index: nat, heading: Option<string>): seq<RawChunk> {
    if ws == [] then []
    else
      var content := contents(ws[0]);
      if content == [] then Chunks(contents, ws[1..], index, heading)
      else [ChunkOf(content, index, heading)] + Chunks(contents, ws[1..], index + 1, heading)
  }

  function Append(acc: seq<RawChunk>, content: string, heading: Option<string>): seq<RawChunk> {
    if content == [] then acc else acc + [ChunkOf(content, |acc|, heading)]
  }

  lemma ChunksStep(contents: Window -> string, ws: seq<Window>, heading: Option<string>, done: seq<RawChunk>)
    requires ws != []
    ensures var done' := Append(done, contents(ws[0]), heading);
            done + Chunks(contents, ws, |done|, heading) == done' + Chunks(contents, ws[1..], |done'|, heading)
  {
    var content := contents(ws[0]);
    if content != [] {
      var chunk := ChunkOf(content, |done|, heading);
      var rest := Chunks(contents, ws[1..], |done| + 1, heading);
      assert Chunks(contents, ws, |done|, heading) == [chunk] + rest;
      Assoc(done, [chunk], rest);
    }
  }

  lemma WindowsStep(n: nat, endOf: nat -> nat, overlap: int, start: nat)
    requires start < n
    ensures var ws, end := Windows(n, endOf, overlap, start), endOf(start);
            && ws != [] && ws[0] == Window(start, end)
            && ws[1..] == if end >= n then [] else Windows(n, endOf, overlap, NextStart(end, overlap, start))
  {
  }

  /** The loop, as a function of its variables. */
  function Loop(n: nat, endOf: nat -> nat, contents: Window -> string, overlap: int, start: nat,
                heading: Option<string>, acc: seq<RawChunk>): seq<RawChunk>
    decreases n - start
  {
    if start >= n then acc
    else
      var end := endOf(start);
      var acc' := Append(acc, contents(Window(start, end)), heading);
      if end >= n then acc' else Loop(n, endOf, contents, overlap, NextStart(end, overlap, start), heading, acc')
  }

  lemma {:induction false} LoopIsChunks(n: nat, endOf: nat -> nat, contents: Window -> string, overlap: int, start: nat,
                                        heading: Option<string>, acc: seq<RawChunk>)
    ensures Loop(n, endOf, contents, overlap, start, heading, acc)
         == acc + Chunks(contents, Windows(n, endOf, overlap, start), |acc|, heading)
    decreases n - start
  {
    if start < n {
      var end, ws := endOf(start), Windows(n, endOf, overlap, start);
      var acc' := Append(acc, contents(Window(start, end)), heading);
      WindowsStep(n, endOf, overlap, start);
      ChunksStep(contents, ws, heading, acc);
      if end < n {
        LoopIsChunks(n, endOf, contents, overlap, NextStart(end, overlap, start), heading, acc');
      } else {
        assert acc' + [] == acc';
      }
    } else {
      assert acc + [] == acc;
    }
  }

  /** The chunker's loop, over the cutting rule and the stripped windows of its text. */
  method RunLoop(n: nat, endOf: nat -> nat, contents: Window -> string, overlap: int, heading: Option<string>)
    returns (chunks: seq<RawChunk>)
    ensures chunks == Loop(n, endOf, contents, overlap, 0, heading, [])
  {
    chunks := [];
    var start, index := 0, 0;
    while start < n
      invariant index == |chunks|
      invariant Loop(n, endOf, contents, overlap, start, heading, chunks) == Loop(n, endOf, contents, overlap, 0, heading, [])
      decreases n - start
    {
      var end := endOf(start);
      var content := contents(Window(start, end));
      if content != [] {
        chunks := chunks + [RawChunk(content, index, if |content| / 4 > 1 then |content| / 4 else 1, heading)];
        index := index + 1;
      }
      if end >= n {
        return;
      }
      start := if end - overlap > start + 1 then end - overlap else start + 1;
    }
  }

  method ChunkRecursive(text: string, cfg: Config, heading: Option<string>) returns (chunks: seq<RawChunk>)
    ensures chunks == Chunks(Contents(text), WindowsOf(text, cfg), 0, heading)
  {
    if text == [] {
      return [];
    }
    chunks := RunLoop(|text|, Cutter(text, Size(cfg)), Contents(text), Overlap(cfg), heading);
    LoopIsChunks(|text|, Cutter(text, Size(cfg)), Contents(text), Overlap(cfg), 0, heading, []);
  }

  // ---------------------------------------------------------------------------------------

  /** The overlap in force: not negative, and at most half a window. */
  predicate Fits(overlap: int, size: nat) { 0 <= overlap <= size / 2 && size >= 64 }

  /** Then the next window begins exactly the overlap before the last end. */
  lemma NextStartIsEndMinusOverlap(n: nat, size: nat, endOf: nat -> nat, overlap: int, start: nat)
    requires Cuts(n, size, endOf) && Fits(overlap, size) && start < n && endOf(start) < n
    ensures NextStart(endOf(start), overlap, start) == endOf(start) - overlap > start
  {
  }

  /** The windows lie in the text and go forward; each begins exactly the overlap before the end
      of the one before and goes beyond it; the last one reaches the end of the text. */
  predicate Chained(n: nat, ws: seq<Window>, overlap: nat) {
    ws == [] ||
    (&& ws[0].start < ws[0].end <= n
     && if |ws| == 1 then ws[0].end == n
        else
          && ws[0].start < ws[1].start == ws[0].end - overlap
          && ws[0].end < ws[1].end
          && Chained(n, ws[1..], overlap))
  }

  lemma {:induction false} WindowsAreChained(n: nat, size: nat, endOf: nat -> nat, overlap: nat, start: nat)
    requires Cuts(n, size, endOf) && Fits(overlap, size)
    ensures var ws := Windows(n, endOf, overlap, start);
            Chained(n, ws, overlap) && (start < n ==> ws != [] && ws[0] == Window(start, endOf(start)))
    decreases n - start
  {
    if start < n && endOf(start) < n {
      var end := endOf(start);
      NextStartIsEndMinusOverlap(n, size, endOf, overlap, start);
      var next := end - overlap;
      WindowsAreChained(n, size, endOf, overlap, next);
      assert endOf(next) == n || endOf(next) > next + size / 2 >= end;
      var ws, rest := Windows(n, endOf, overlap, start), Windows(n, endOf, overlap, next);
      assert ws == [Window(start, end)] + rest && ws[1..] == rest;
    }
  }

  /** The later windows, each without the overlap. */
  function NewParts(text: string, ws: seq<Window>, overlap: nat): string {
    if ws == [] then []
    else Slice(text, Window(ws[0].start + overlap, ws[0].end)) + NewParts(text, ws[1..], overlap)
  }

  /** The text of the windows with every overlap dropped. */
  function Rebuilt(text: string, ws: seq<Window>, overlap: nat): string {
    if ws == [] then [] else Slice(text, ws[0]) + NewParts(text, ws[1..], overlap)
  }

  lemma {:induction false} NewPartsContinue(text: string, ws: seq<Window>, overlap: nat)
    requires ws != [] && Chained(|text|, ws, overlap)
    ensures NewParts(text, ws[1..], overlap) == text[ws[0].end..]
  {
    if |ws| > 1 {
      NewPartsContinue(text, ws[1..], overlap);
      Splice(text, ws[0].end, ws[1].end);
    }
  }

  lemma Splice(text: string, a: nat, b: nat)
    requires a <= b <= |text|
    ensures text[a..b] + text[b..] == text[a..]
  {
  }

  /** Dropping the overlaps rebuilds the text, whatever the text and the size. */
  lemma WindowsRebuildText(text: string, cfg: Config)
    requires cfg.chunkOverlap >= 0
    ensures var size := if cfg.chunkSize > 64 then cfg.chunkSize else 64;
            var overlap := if cfg.chunkOverlap < size / 2 then cfg.chunkOverlap else size / 2;
            Rebuilt(text, WindowsOf(text, cfg), overlap) == text && Chained(|text|, WindowsOf(text, cfg), overlap)
  {
    var ws := WindowsOf(text, cfg);
    WindowsAreChained(|text|, Size(cfg), Cutter(text, Size(cfg)), Overlap(cfg), 0);
    if text != [] {
      NewPartsContinue(text, ws, Overlap(cfg));
      Splice(text, 0, ws[0].end);
    }
  }

  /** Character `p` of the text stands in chunk `c`, at the place its window gives it. */
  ghost predicate HoldsCharacter(text: string, w: Window, c: RawChunk, p: nat)
    requires p < |text|
  {
    && w.start <= p < w.end <= |text| && c.content == Strip(text[w.start..w.end])
    && var offset := p - w.start - SkipSpaces(text[w.start..w.end], 0);
       0 <= offset < |c.content| && c.content[offset] == text[p]
  }

  ghost predicate Covers(text: string, ws: seq<Window>, chunks: seq<RawChunk>, p: nat)
    requires p < |text|
  {
    exists w, c :: w in ws && c in chunks && HoldsCharacter(text, w, c, p)
  }

  lemma {:induction false} CoveringWindow(n: nat, ws: seq<Window>, overlap: nat, p: nat) returns (w: Window)
    requires ws != [] && Chained(n, ws, overlap) && ws[0].start <= p < n
    ensures w in ws && w.start <= p < w.end <= n
    decreases |ws|
  {
    if p < ws[0].end {
      w := ws[0];
    } else {
      w := CoveringWindow(n, ws[1..], overlap, p);
    }
  }

  lemma {:induction false} WindowIsEmitted(
    contents: Window -> string, ws: seq<Window>, index: nat, heading: Option<string>, w: Window) returns (c: RawChunk)
    requires w in ws && contents(w) != []
    ensures c in Chunks(contents, ws, index, heading) && c.content == contents(w)
    decreases |ws|
  {
    if w == ws[0] {
      c := ChunkOf(contents(w), index, heading);
    } else {
      c := WindowIsEmitted(contents, ws[1..], if contents(ws[0]) == [] then index else index + 1, heading, w);
    }
  }

  /** A character that is not whitespace survives the stripping of its window. */
  lemma StripKeeps(s: string, i: nat)
    requires i < |s| && !IsSpace(s[i])
    ensures var k := i - SkipSpaces(s, 0); 0 <= k < |Strip(s)| && Strip(s)[k] == s[i]
  {
    var lo := SkipSpaces(s, 0);
    var hi := ContentEnd(s, lo, |s|);
    StripFacts(s);
    assert lo <= i < hi;
  }

  /** Every character that is not whitespace lies in an emitted chunk. */
  lemma EveryCharacterIsCovered(text: string, cfg: Config, heading: Option<string>, p: nat)
    requires cfg.chunkOverlap >= 0 && p < |text| && !IsSpace(text[p])
    ensures Covers(text, WindowsOf(text, cfg), Chunks(Contents(text), WindowsOf(text, cfg), 0, heading), p)
  {
    var ws := WindowsOf(text, cfg);
    WindowsAreChained(|text|, Size(cfg), Cutter(text, Size(cfg)), Overlap(cfg), 0);
    var w := CoveringWindow(|text|, ws, Overlap(cfg), p);
    StrippedWindow(text, w, p);
    var c := WindowIsEmitted(Contents(text), ws, 0, heading, w);
    assert HoldsCharacter(text, w, c, p);
  }

  lemma StrippedWindow(text: string, w: Window, p: nat)
    requires w.start <= p < w.end <= |text| && !IsSpace(text[p])
    ensures Contents(text)(w) != []
    ensures forall c: RawChunk :: c.content == Contents(text)(w) ==> HoldsCharacter(text, w, c, p)
  {
    var s := text[w.start..w.end];
    assert s[p - w.start] == text[p];
    StripKeeps(s, p - w.start);
    assert Slice(text, w) == s;
  }

  predicate Short(ws: seq<Window>, size: nat) {
    ws == [] || (ws[0].end - ws[0].start <= size && Short(ws[1..], size))
  }

  lemma {:induction false} WindowsAreShort(n: nat, size: nat, endOf: nat -> nat, overlap: int, start: nat)
    requires Cuts(n, size, endOf)
    ensures Short(Windows(n, endOf, overlap, start), size)
    decreases n - start
  {
    if start < n {
      WindowsStep(n, endOf, overlap, start);
      if endOf(start) < n {
        WindowsAreShort(n, size, endOf, overlap, NextStart(endOf(start), overlap, start));
      }
    }
  }

  /** Indices count up from `index`, and each chunk is some window's text, not blank. */
  lemma {:induction false} ChunkAt(
    contents: Window -> string, ws: seq<Window>, size: nat, index: nat, heading: Option<string>, i: nat)
      returns (w: Window)
    requires Short(ws, size) && i < |Chunks(contents, ws, index, heading)|
    ensures w.end - w.start <= size && contents(w) != []
    ensures Chunks(contents, ws, index, heading)[i] == ChunkOf(contents(w), index + i, heading)
    decreases |ws|
  {
    if contents(ws[0]) == [] {
      w := ChunkAt(contents, ws[1..], size, index, heading, i);
    } else if i > 0 {
      w := ChunkAt(contents, ws[1..], size, index + 1, heading, i - 1);
    } else {
      w := ws[0];
    }
  }

  /** Its place, the heading, and a token for each four characters, at least one. */
  predicate WellLabelled(c: RawChunk, index: nat, heading: Option<string>) {
    && c.chunkIndex == index && c.heading == heading
    && if |c.content| < 4 then c.tokenCount == 1 else 4 * c.tokenCount <= |c.content| < 4 * c.tokenCount + 4
  }

  /** What the chunker emits, for any configuration: 0..n-1 in order, none blank, none longer
      than the size, which is at least 64. */
  lemma ChunksAreBounded(text: string, cfg: Config, heading: Option<string>)
    ensures var r, size := Chunks(Contents(text), WindowsOf(text, cfg), 0, heading), if cfg.chunkSize > 64 then cfg.chunkSize else 64;
            forall i :: 0 <= i < |r| ==> WellLabelled(r[i], i, heading) && 1 <= |r[i].content| <= size
  {
    var ws := WindowsOf(text, cfg);
    WindowsAreShort(|text|, Size(cfg), Cutter(text, Size(cfg)), Overlap(cfg), 0);
    var r := Chunks(Contents(text), ws, 0, heading);
    forall i | 0 <= i < |r| ensures WellLabelled(r[i], i, heading) && 1 <= |r[i].content| <= Size(cfg) {
      var w := ChunkAt(Contents(text), ws, Size(cfg), 0, heading, i);
      assert |Slice(text, w)| <= Size(cfg);
    }
  }

  // ---------------------------------------------------------------------------------------
  // The windows, without the functions that compute them

  /** The window reaches the end of the text if it can; otherwise it ends at the last space of its second
      half; and at its full size when there is no space. */
  ghost predicate CutWell(text: string, w: Window, size: nat) {
    var half, full := w.start + size / 2, w.start + size;
    && w.start < w.end <= |text|
    && if full >= |text| then w.end == |text|
       else if forall p :: half < p < full ==> text[p] != ' ' then w.end == full
       else half < w.end < full && text[w.end] == ' ' && forall p :: w.end < p < full ==> text[p] != ' '
  }

  lemma CutsAtLastSpace(text: string, size: nat, start: nat)
    requires start < |text| && size >= 64
    ensures CutWell(text, Window(start, WindowEnd(text, size, start)), size)
  {
    if start + size < |text| {
      RFindSpaceIsLast(text, start, start + size);
    }
  }

  /** The first window begins at `start`, and each other one the overlap before the end of the one before it,
      until one ends with the text or the next one would begin behind it. */
  ghost predicate Windowing(text: string, ws: seq<Window>, start: int, size: nat, overlap: int)
    decreases |ws|
  {
    if start >= |text| then ws == []
    else
      && ws != [] && ws[0].start == start && CutWell(text, ws[0], size)
      && if ws[0].end == |text| then |ws| == 1 else Windowing(text, ws[1..], ws[0].end - overlap, size, overlap)
  }

  lemma NextStartExactly(text: string, size: nat, overlap: int, start: nat)
    requires size >= 64 && overlap <= size / 2 && start < |text| && WindowEnd(text, size, start) < |text|
    ensures var end := WindowEnd(text, size, start); NextStart(end, overlap, start) == end - overlap
  {
  }

  lemma MoreWindows(text: string, w: Window, ws: seq<Window>, size: nat, overlap: int)
    requires w.start < |text| && CutWell(text, w, size)
    requires if w.end == |text| then ws == [] else Windowing(text, ws, w.end - overlap, size, overlap)
    ensures Windowing(text, [w] + ws, w.start, size, overlap)
  {
    assert ([w] + ws)[1..] == ws;
  }

  lemma WindowingStep(text: string, size: nat, overlap: int, start: nat, next: nat, rest: seq<Window>)
    requires size >= 64 && overlap <= size / 2 && start < |text|
    requires var end := WindowEnd(text, size, start);
             if end >= |text| then rest == [] else next == NextStart(end, overlap, start) && Windowing(text, rest, next, size, overlap)
    ensures Windowing(text, [Window(start, WindowEnd(text, size, start))] + rest, start, size, overlap)
  {
    var end := WindowEnd(text, size, start);
    if end < |text| {
      NextStartExactly(text, size, overlap, start);
    }
    CutsAtLastSpace(text, size, start);
    MoreWindows(text, Window(start, end), rest, size, overlap);
  }

  ghost predicate EndsWindows(text: string, size: nat, endOf: nat -> nat)
    requires size >= 64
  {
    forall start :: 0 <= start < |text| ==> endOf(start) == WindowEnd(text, size, start)
  }

  lemma {:induction false} WindowsAreWindowing(text: string, size: nat, endOf: nat -> nat, overlap: int, start: nat)
    requires size >= 64 && overlap <= size / 2 && EndsWindows(text, size, endOf)
    ensures Windowing(text, Windows(|text|, endOf, overlap, start), start, size, overlap)
    decreases |text| - start
  {
    if start < |text| {
      var end := endOf(start);
      var next := NextStart(end, overlap, start);
      if end < |text| {
        WindowsAreWindowing(text, size, endOf, overlap, next);
        WindowingStep(text, size, overlap, start, next, Windows(|text|, endOf, overlap, next));
      } else {
        WindowingStep(text, size, overlap, start, next, []);
      }
    }
  }

  lemma {:induction false} WindowingIsUnique(
    text: string, ws: seq<Window>, vs: seq<Window>, start: int, size: nat, overlap: int)
    requires Windowing(text, ws, start, size, overlap) && Windowing(text, vs, start, size, overlap)
    ensures ws == vs
    decreases |ws|
  {
    if start < |text| {
      SameCut(text, ws[0], vs[0], size);
      if ws[0].end < |text| {
        WindowingIsUnique(text, ws[1..], vs[1..], ws[0].end - overlap, size, overlap);
        assert ws == [ws[0]] + ws[1..] && vs == [vs[0]] + vs[1..];
      }
    }
  }

  lemma SameCut(text: string, w: Window, v: Window, size: nat)
    requires CutWell(text, w, size) && CutWell(text, v, size) && w.start == v.start
    ensures w == v
  {
  }

  /** The windows of a document are the only ones cut like that, from the start of the text, with the size in
      force and the overlap in force, for every configuration. */
  lemma WindowsExactly(text: string, cfg: Config, ws: seq<Window>)
    ensures var size := if cfg.chunkSize > 64 then cfg.chunkSize else 64;
            var overlap := if cfg.chunkOverlap < size / 2 then cfg.chunkOverlap else size / 2;
            ws == WindowsOf(text, cfg) <==> Windowing(text, ws, 0, size, overlap)
  {
    WindowsAreWindowing(text, Size(cfg), Cutter(text, Size(cfg)), Overlap(cfg), 0);
    if Windowing(text, ws, 0, Size(cfg), Overlap(cfg)) {
      WindowingIsUnique(text, ws, WindowsOf(text, cfg), 0, Size(cfg), Overlap(cfg));
    }
  }

  lemma ChunksUnfold(contents: Window -> string, w: Window, rest: seq<Window>, index: nat, heading: Option<string>)
    ensures Chunks(contents, [w] + rest, index, heading) ==
            Chunks(contents, [w], index, heading)
            + Chunks(contents, rest, index + |Chunks(contents, [w], index, heading)|, heading)
  {
    assert ([w] + rest)[1..] == rest && [w][1..] == [];
    assert Chunks(contents, [], index, heading) == [] && Chunks(contents, [], index + 1, heading) == [];
  }

  lemma OneMoreWindow(contents: Window -> string, w: Window, a: seq<Window>, b: seq<Window>, index: nat, heading: Option<string>)
    requires var i := index + |Chunks(contents, [w], index, heading)|;
             var first := Chunks(contents, a, i, heading);
             Chunks(contents, a + b, i, heading) == first + Chunks(contents, b, i + |first|, heading)
    ensures var first := Chunks(contents, [w] + a, index, heading);
            Chunks(contents, [w] + (a + b), index, heading) == first + Chunks(contents, b, index + |first|, heading)
  {
    ChunksUnfold(contents, w, a, index, heading);
    ChunksUnfold(contents, w, a + b, index, heading);
  }

  /** The chunks stand in the order of their windows, counted on from one part to the next. */
  lemma {:induction false} ChunksOfSum(
    contents: Window -> string, a: seq<Window>, b: seq<Window>, index: nat, heading: Option<string>)
    ensures var first := Chunks(contents, a, index, heading);
            Chunks(contents, a + b, index, heading) == first + Chunks(contents, b, index + |first|, heading)
    decreases |a|
  {
    if a == [] {
      assert a + b == b;
    } else {
      ChunksOfSum(contents, a[1..], b, index + |Chunks(contents, [a[0]], index, heading)|, heading);
      OneMoreWindow(contents, a[0], a[1..], b, index, heading);
      assert [a[0]] + a[1..] == a && [a[0]] + (a[1..] + b) == a + b;
    }
  }

  /** A window gives one chunk, with its stripped text, or none when it is blank. */
  lemma OneChunk(text: string, w: Window, index: nat, heading: Option<string>)
    requires w.start <= w.end <= |text|
    ensures var one := Chunks(Contents(text), [w], index, heading);
            if Blank(text[w.start..w.end]) then one == []
            else |one| == 1 && one[0].content == Strip(text[w.start..w.end]) && WellLabelled(one[0], index, heading)
  {
    var contents := Contents(text);
    assert [w][1..] == [];
    assert Chunks(contents, [], index, heading) == [] && Chunks(contents, [], index + 1, heading) == [];
    StripFacts(text[w.start..w.end]);
  }

  ghost predicate KeepsCharacter(text: string, cfg: Config, p: nat)
    requires p < |text|
  {
    Covers(text, WindowsOf(text, cfg), Chunks(Contents(text), WindowsOf(text, cfg), 0, None), p)
  }

  ghost predicate LosesNothing(cfg: Config) {
    forall text, p: nat :: p < |text| && !IsSpace(text[p]) ==> KeepsCharacter(text, cfg, p)
  }

  /** The first character after a full window is skipped when the next window begins beyond it. */
  lemma NegativeOverlapLoses(cfg: Config) returns (text: string)
    requires cfg.chunkOverlap < 0
    ensures |text| == Size(cfg) + 1 && !IsSpace(text[Size(cfg)])
    ensures WindowsOf(text, cfg) == [Window(0, Size(cfg))]
  {
    text := seq(Size(cfg) + 1, i => 'x');
    RFindSpaceIsLast(text, 0, Size(cfg));
    assert Cutter(text, Size(cfg))(0) == Size(cfg);
    assert NextStart(Size(cfg), Overlap(cfg), 0) > Size(cfg);
    assert Windows(|text|, Cutter(text, Size(cfg)), Overlap(cfg), NextStart(Size(cfg), Overlap(cfg), 0)) == [];
  }

  /** No text is lost, for all texts, exactly when the configured overlap is not negative. */
  lemma CoverageExactlyWithoutGaps(cfg: Config)
    ensures LosesNothing(cfg) <==> cfg.chunkOverlap >= 0
  {
    if cfg.chunkOverlap >= 0 {
      forall text, p: nat | p < |text| && !IsSpace(text[p]) ensures KeepsCharacter(text, cfg, p) {
        EveryCharacterIsCovered(text, cfg, None, p);
      }
    } else {
      var text := NegativeOverlapLoses(cfg);
      assert !KeepsCharacter(text, cfg, Size(cfg));
    }
  }

  // ---------------------------------------------------------------------------------------

  datatype Stored = Stored(content: string, embedding: seq<real>)

  predicate Numbered(chunks: seq<(RawChunk, seq<real>)>) {
    forall i :: 0 <= i < |chunks| ==> chunks[i].0.chunkIndex == i
  }

  type Rows = map<(nat, nat), Stored>   // unique by (document version, chunk index)

  /** The rows of one version are exactly the first `n` of these chunks. */
  ghost predicate HoldsFirst(rows: Rows, version: nat, chunks: seq<(RawChunk, seq<real>)>, n: nat)
    requires n <= |chunks|
  {
    && (forall k :: k in rows && k.0 == version ==> k.1 < n)
    && (forall i :: 0 <= i < n ==> (version, i) in rows && rows[(version, i)] == Stored(chunks[i].0.content, chunks[i].1))
  }

  /** A chunk whose key is not there already, and that no chunk before it has, is the one that is stored. */
  ghost predicate FirstIsStored(before: Rows, rows: Rows, version: nat, chunks: seq<(RawChunk, seq<real>)>, i: nat)
    requires i < |chunks|
  {
    var key := (version, chunks[i].0.chunkIndex);
    key !in before && (forall k :: 0 <= k < i ==> chunks[k].0.chunkIndex != chunks[i].0.chunkIndex) ==>
      key in rows && rows[key] == Stored(chunks[i].0.content, chunks[i].1)
  }

  /** Every new row is some chunk's, and every new key has the first chunk with it. */
  ghost predicate AllStored(before: Rows, rows: Rows, version: nat, chunks: seq<(RawChunk, seq<real>)>, n: nat)
    requires n <= |chunks|
  {
    && (forall k :: k in rows && k !in before ==> ChunkBefore(chunks, n, k.1))
    && (forall i :: 0 <= i < n ==> FirstIsStored(before, rows, version, chunks, i))
  }

  ghost predicate ChunkBefore(chunks: seq<(RawChunk, seq<real>)>, n: nat, index: nat)
    requires n <= |chunks|
  {
    exists i :: 0 <= i < n && chunks[i].0.chunkIndex == index
  }

  lemma OneMoreStored(before: Rows, rows: Rows, version: nat, chunks: seq<(RawChunk, seq<real>)>, n: nat)
    requires n < |chunks| && AllStored(before, rows, version, chunks, n)
    requires forall i :: 0 <= i < n ==> (version, chunks[i].0.chunkIndex) in rows
    ensures var key, row := (version, chunks[n].0.chunkIndex), Stored(chunks[n].0.content, chunks[n].1);
            AllStored(before, if key in rows then rows else rows[key := row], version, chunks, n + 1)
  {
    var key, row := (version, chunks[n].0.chunkIndex), Stored(chunks[n].0.content, chunks[n].1);
    var rows' := if key in rows then rows else rows[key := row];
    forall k | k in rows' && k !in before ensures ChunkBefore(chunks, n + 1, k.1) {
      if k in rows {
        assert ChunkBefore(chunks, n, k.1);
      } else {
        assert chunks[n].0.chunkIndex == k.1;
      }
    }
    if key in rows && key !in before {
      assert ChunkBefore(chunks, n, key.1);
    }
    forall i | 0 <= i < n ensures FirstIsStored(before, rows', version, chunks, i) {
      assert FirstIsStored(before, rows, version, chunks, i) && (version, chunks[i].0.chunkIndex) in rows;
    }
  }

  lemma OneMoreRow(rows: Rows, key: (nat, nat), row: Stored)
    requires key !in rows
    ensures |rows[key := row]| == |rows| + 1
  {
    assert rows[key := row].Keys == rows.Keys + {key};
  }

  lemma OneMoreHeld(rows: Rows, version: nat, chunks: seq<(RawChunk, seq<real>)>, n: nat)
    requires n < |chunks| && HoldsFirst(rows, version, chunks, n)
    ensures (version, n) !in rows
    ensures HoldsFirst(rows[(version, n) := Stored(chunks[n].0.content, chunks[n].1)], version, chunks, n + 1)
  {
  }

  class ChunkTable {
    var rows: Rows

    /** Inserts each chunk; a duplicate of (version, index) is suppressed and not counted. So
        numbered chunks all arrive in an empty version. */
    method UpsertChunks(version: nat, chunks: seq<(RawChunk, seq<real>)>) returns (count: nat)
      modifies this
      ensures forall k :: k in old(rows) ==> k in rows && rows[k] == old(rows)[k]
      ensures forall k :: k in rows && k !in old(rows) ==> k.0 == version
      ensures forall i :: 0 <= i < |chunks| ==> (version, chunks[i].0.chunkIndex) in rows
      ensures AllStored(old(rows), rows, version, chunks, |chunks|)
      ensures count == |rows| - |old(rows)|
      ensures Numbered(chunks) && HoldsFirst(old(rows), version, chunks, 0) ==>
                count == |chunks| && HoldsFirst(rows, version, chunks, |chunks|)
    {
      count := 0;
      ghost var whole := Numbered(chunks) && HoldsFirst(rows, version, chunks, 0);
      for n := 0 to |chunks|
        invariant forall k :: k in old(rows) ==> k in rows && rows[k] == old(rows)[k]
        invariant forall k :: k in rows && k !in old(rows) ==> k.0 == version
        invariant forall i :: 0 <= i < n ==> (version, chunks[i].0.chunkIndex) in rows
        invariant AllStored(old(rows), rows, version, chunks, n)
        invariant count == |rows| - |old(rows)|
        invariant whole ==> count == n && HoldsFirst(rows, version, chunks, n)
      {
        var key := (version, chunks[n].0.chunkIndex);
        OneMoreStored(old(rows), rows, version, chunks, n);
        if whole {
          OneMoreHeld(rows, version, chunks, n);
        }
        if key in rows {
          continue;
        }
        OneMoreRow(rows, key, Stored(chunks[n].0.content, chunks[n].1));
        rows := rows[key := Stored(chunks[n].0.content, chunks[n].1)];
        count := count + 1;
      }
    }
  }
}
