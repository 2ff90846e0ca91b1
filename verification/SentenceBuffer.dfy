/** Buffering a token stream into sentences for speech synthesis. */
module SentenceBuffer {
  import opened Text

  /** What `add` does: return a sentence, return nothing, or raise IndexError. */
  datatype Added = Sentence(text: string) | Nothing | Crash

  predicate IsEnding(c: char) { c == '.' || c == '!' || c == '?' || c == ';' || c == '\n' }

  predicate NoEnding(s: string) { forall i :: 0 <= i < |s| ==> !IsEnding(s[i]) }

  /** Position of the last ending below `n`, or -1. */
  function LastEnding(s: string, n: nat): (r: int)
    requires n <= |s|
    ensures -1 <= r < n
    decreases |s|, n
  {
    if n == 0 then -1 else if IsEnding(s[n - 1]) then n - 1 else LastEnding(s, n - 1)
  }

  lemma {:induction false} LastEndingIsLast(s: string, n: nat)
    requires n <= |s|
    ensures LastEnding(s, n) >= 0 ==> IsEnding(s[LastEnding(s, n)])
    ensures forall k :: LastEnding(s, n) < k < n ==> !IsEnding(s[k])
    decreases n
  {
    if n > 0 && !IsEnding(s[n - 1]) {
      LastEndingIsLast(s, n - 1);
    }
  }

  /** The joined buffer makes `add` index past its shortened self: the text up to the last ending
      is blank, and the ending stands neither first nor in the first half. */
  predicate Overruns(joined: string) {
    var i := LastEnding(joined, |joined|);
    i >= 1 && 2 * i >= |joined| && Strip(joined[..i + 1]) == []
  }

  /** What `add` answers and keeps, in closed form. */
  function Outcome(joined: string): (Added, string) {
    var i := LastEnding(joined, |joined|);
    if i < 0 then (Nothing, joined)
    else
      var sentence := Strip(joined[..i + 1]);
      (if sentence != [] then Sentence(sentence) else if Overruns(joined) then Crash else Nothing, joined[i + 1..])
  }

  class Buffer {
    var buffer: string

    constructor ()
      ensures buffer == []
    {
      buffer := [];
    }

    /** The loop runs over the indices of the joined buffer, also after it has shortened it. */
    method Add(token: string) returns (r: Added)
      modifies this
      ensures (r, buffer) == Outcome(old(buffer) + token)
    {
      buffer := buffer + token;
      ghost var joined := buffer;
      var i := |buffer| - 1;
      LastEndingIsLast(joined, |joined|);
      ghost var last := LastEnding(joined, |joined|);
      while i >= 0
        invariant -1 <= i < |joined|
        invariant last <= i ==> buffer == joined && forall k :: i < k < |joined| ==> !IsEnding(joined[k])
        invariant i < last ==> buffer == joined[last + 1..] && Strip(joined[..last + 1]) == [] && NoEnding(buffer)
        invariant i < last - 1 ==> last - 1 < |buffer|
      {
        if i >= |buffer| {
          return Crash;
        }
        if IsEnding(buffer[i]) {
          assert i == last;
          var sentence := Strip(buffer[..i + 1]);
          buffer := buffer[i + 1..];
          if sentence != [] {
            return Sentence(sentence);
          }
        }
        i := i - 1;
      }
      return Nothing;
    }

    method Flush() returns (r: Option<string>)
      modifies this
      ensures buffer == []
      ensures r == if Strip(old(buffer)) == [] then None else Some(Strip(old(buffer)))
    {
      var remaining := Strip(buffer);
      buffer := [];
      r := if remaining != [] then Some(remaining) else None;
    }
  }

  // ---------------------------------------------------------------------------------------

  /** No text is lost but whitespace. */
  lemma OutcomeKeepsText(joined: string)
    ensures var (r, kept) := Outcome(joined);
            Erase(joined) == if r.Sentence? then Erase(r.text) + Erase(kept) else Erase(kept)
  {
    var i := LastEnding(joined, |joined|);
    if i >= 0 {
      SplitKeepsText(joined, i + 1);
      assert Strip(joined[..i + 1]) == [] ==> Erase([]) + Erase(joined[i + 1..]) == Erase(joined[i + 1..]);
    }
  }

  /** The retained text never holds an ending, and a sentence has no whitespace around it. */
  lemma OutcomeIsTrimmed(joined: string)
    ensures var (r, kept) := Outcome(joined);
            && NoEnding(kept)
            && (r.Sentence? ==> r.text != [] && !IsSpace(r.text[0]) && !IsSpace(r.text[|r.text| - 1]))
  {
    var i := LastEnding(joined, |joined|);
    LastEndingIsLast(joined, |joined|);
    if i >= 0 {
      StripFacts(joined[..i + 1]);
    }
  }

  /** What `add` cuts off: nothing without an ending; otherwise the text up to the last ending. */
  predicate CutAt(joined: string, cut: nat, kept: string) {
    && cut <= |joined| && kept == joined[cut..] && NoEnding(kept)
    && (cut > 0 ==> IsEnding(joined[cut - 1]))
  }

  /** The sentence is a slice of the joined text, with nothing but whitespace between it and the start,
      and between it and the cut; there is none exactly when all text up to the cut is blank. */
  lemma SentenceIsSlice(joined: string) returns (lo: nat, hi: nat, cut: nat)
    ensures var (r, kept) := Outcome(joined);
            && CutAt(joined, cut, kept) && lo <= hi <= cut
            && Blank(joined[..lo]) && Blank(joined[hi..cut])
            && (r.Sentence? ==> r.text == joined[lo..hi])
            && (r.Sentence? <==> lo < hi) && (lo < hi <==> !Blank(joined[..cut]))
  {
    LastEndingIsLast(joined, |joined|);
    cut := LastEnding(joined, |joined|) + 1;
    var head := joined[..cut];
    StripFacts(head);
    lo := SkipSpaces(head, 0);
    hi := ContentEnd(head, lo, |head|);
    assert head[lo..hi] == joined[lo..hi];
    assert head[..lo] == joined[..lo] && head[hi..] == joined[hi..cut];
    if cut == 0 {
      assert joined[0..] == joined;
    }
  }

  lemma SplitKeepsText(s: string, n: nat)
    requires n <= |s|
    ensures Erase(Strip(s[..n])) + Erase(s[n..]) == Erase(s)
  {
    EraseStrip(s[..n]);
    EraseConcat(s[..n], s[n..]);
    assert s[..n] + s[n..] == s;
  }

  /** The last ending stands at an index i with i >= 1 and 2i >= L, and all text up to it is blank. */
  ghost predicate LateBlankEnding(joined: string) {
    exists i :: 1 <= i < |joined| && 2 * i >= |joined| && IsEnding(joined[i]) && Blank(joined[..i + 1])
                && NoEnding(joined[i + 1..])
  }

  /** `add` crashes exactly when the text up to the last ending is blank and that ending, at
      index i of a joined buffer of length L, has i >= 1 and 2i >= L. */
  lemma CrashExactlyWhen(joined: string)
    ensures Outcome(joined).0.Crash? <==> LateBlankEnding(joined)
  {
    if Outcome(joined).0.Crash? {
      OverrunIsLate(joined);
    }
    if LateBlankEnding(joined) {
      var i :| 1 <= i < |joined| && 2 * i >= |joined| && IsEnding(joined[i]) && Blank(joined[..i + 1])
               && NoEnding(joined[i + 1..]);
      LateIsOverrun(joined, i);
    }
  }

  lemma LateIsOverrun(joined: string, i: nat)
    requires 1 <= i < |joined| && 2 * i >= |joined| && IsEnding(joined[i]) && Blank(joined[..i + 1]) && NoEnding(joined[i + 1..])
    ensures Overruns(joined)
  {
    forall k | i < k < |joined| ensures !IsEnding(joined[k]) {
      assert joined[k] == joined[i + 1..][k - i - 1];
    }
    LastEndingIs(joined, i);
    StripFacts(joined[..i + 1]);
  }

  /** An ending with none behind it is the last one. */
  lemma LastEndingIs(s: string, p: int)
    requires -1 <= p < |s| && (p >= 0 ==> IsEnding(s[p])) && forall k :: p < k < |s| ==> !IsEnding(s[k])
    ensures LastEnding(s, |s|) == p
  {
    LastEndingIsLast(s, |s|);
  }

  lemma OverrunIsLate(joined: string)
    requires Overruns(joined)
    ensures LateBlankEnding(joined)
  {
    var i := LastEnding(joined, |joined|);
    LastEndingIsLast(joined, |joined|);
    StripFacts(joined[..i + 1]);
    assert NoEnding(joined[i + 1..]);
  }

  /** Of the endings only a newline is whitespace, so only after a blank line can it overrun. */
  lemma OnlyBlankLinesCrash(joined: string)
    requires Outcome(joined).0.Crash?
    ensures exists i :: 0 <= i < |joined| && joined[i] == '\n' && NoEnding(joined[i + 1..])
  {
    CrashExactlyWhen(joined);
    var i :| 1 <= i < |joined| && 2 * i >= |joined| && IsEnding(joined[i]) && Blank(joined[..i + 1])
             && NoEnding(joined[i + 1..]);
    assert joined[..i + 1][i] == joined[i];
    BlankEnding(joined[i]);
  }

  lemma BlankEnding(c: char)
    requires IsEnding(c) && IsSpace(c)
    ensures c == '\n'
  {
    assert '.' as int == 0x2E && '!' as int == 0x21 && '?' as int == 0x3F && ';' as int == 0x3B;
  }

  /** Two newlines in one token are enough. */
  lemma BlankLineCrashes()
    ensures Outcome("\n\n").0.Crash?
  {
    var joined := "\n\n";
    assert '\n' as int == 0x0A;
    assert IsEnding(joined[1]) && Blank(joined[..1 + 1]) && NoEnding(joined[1 + 1..]);
    CrashExactlyWhen(joined);
  }

  // ---------------------------------------------------------------------------------------
  // Whole streams

  datatype Stream = Stream(sentences: seq<string>, buffer: string, crashed: bool)

  const START := Stream([], [], false)

  /** The generator's state after some tokens. */
  function After(tokens: seq<string>): Stream {
    if tokens == [] then START
    else
      var s := After(tokens[..|tokens| - 1]);
      if s.crashed then s
      else
        var (r, kept) := Outcome(s.buffer + tokens[|tokens| - 1]);
        Stream(if r.Sentence? then s.sentences + [r.text] else s.sentences, kept, r.Crash?)
  }

  /** What the generator yields in all, unless it crashes. */
  function Yielded(tokens: seq<string>): seq<string> {
    var s := After(tokens);
    if Strip(s.buffer) == [] then s.sentences else s.sentences + [Strip(s.buffer)]
  }

  method TokenStreamToSentences(tokens: seq<string>) returns (yielded: seq<string>, crashed: bool)
    ensures crashed == After(tokens).crashed
    ensures !crashed ==> yielded == Yielded(tokens)
  {
    var buffer := new Buffer();
    yielded := [];
    for i := 0 to |tokens|
      invariant After(tokens[..i]) == Stream(yielded, buffer.buffer, false)
      invariant fresh(buffer)
    {
      assert tokens[..i + 1][..i] == tokens[..i];
      var r := buffer.Add(tokens[i]);
      if r.Crash? {
        CrashStays(tokens, i + 1);
        return yielded, true;
      }
      if r.Sentence? {
        yielded := yielded + [r.text];
      }
    }
    assert tokens[..|tokens|] == tokens;
    crashed := false;
    var remaining := buffer.Flush();
    if remaining.Some? {
      yielded := yielded + [remaining.value];
    }
  }

  lemma {:induction false} CrashStays(tokens: seq<string>, n: nat)
    requires n <= |tokens| && After(tokens[..n]).crashed
    ensures After(tokens) == After(tokens[..n])
    decreases |tokens|
  {
    if n < |tokens| {
      var front := tokens[..|tokens| - 1];
      assert front[..n] == tokens[..n];
      CrashStays(front, n);
    } else {
      assert tokens[..n] == tokens;
    }
  }

  /** One token moves its text into the sentences or the buffer. */
  lemma StepKeepsText(s: Stream, token: string)
    requires !s.crashed
    ensures var (r, kept) := Outcome(s.buffer + token);
            var sentences := if r.Sentence? then s.sentences + [r.text] else s.sentences;
            Erase(Flatten(sentences)) + Erase(kept) == Erase(Flatten(s.sentences)) + Erase(s.buffer) + Erase(token)
  {
    var (r, kept) := Outcome(s.buffer + token);
    OutcomeKeepsText(s.buffer + token);
    EraseConcat(s.buffer, token);
    var f := Erase(Flatten(s.sentences));
    Assoc(f, Erase(s.buffer), Erase(token));
    if r.Sentence? {
      EraseSnoc(s.sentences, r.text);
      Assoc(f, Erase(r.text), Erase(kept));
    }
  }

  lemma EraseSnoc(parts: seq<string>, part: string)
    ensures Erase(Flatten(parts + [part])) == Erase(Flatten(parts)) + Erase(part)
  {
    FlattenSnoc(parts, part);
    EraseConcat(Flatten(parts), part);
  }

  lemma {:induction false} StreamKeepsText(tokens: seq<string>)
    requires !After(tokens).crashed
    ensures Erase(Flatten(After(tokens).sentences)) + Erase(After(tokens).buffer) == Erase(Flatten(tokens))
    ensures NoEnding(After(tokens).buffer)
  {
    if tokens != [] {
      var front, token := tokens[..|tokens| - 1], tokens[|tokens| - 1];
      StreamKeepsText(front);
      StepKeepsText(After(front), token);
      OutcomeIsTrimmed(After(front).buffer + token);
      EraseConcat(Flatten(front), token);
    }
  }

  /** On every stream on which it does not crash, what the generator yields is the input, up
      to whitespace. */
  lemma NothingIsLost(tokens: seq<string>)
    requires !After(tokens).crashed
    ensures Erase(Flatten(Yielded(tokens))) == Erase(Flatten(tokens))
  {
    var s := After(tokens);
    StreamKeepsText(tokens);
    EraseStrip(s.buffer);
    if Strip(s.buffer) != [] {
      FlattenSnoc(s.sentences, Strip(s.buffer));
      EraseConcat(Flatten(s.sentences), Strip(s.buffer));
    } else {
      assert Erase(s.buffer) == [];
      assert Erase(Flatten(s.sentences)) + [] == Erase(Flatten(s.sentences));
    }
  }

  // ---------------------------------------------------------------------------------------
  // Where the sentences stand

  predicate AllBlank(gaps: seq<string>) { forall i :: 0 <= i < |gaps| ==> Blank(gaps[i]) }

  /** Each gap with the sentence behind it. */
  function Woven(gaps: seq<string>, sentences: seq<string>): string
    requires |gaps| == |sentences|
  {
    if gaps == [] then []
    else Woven(gaps[..|gaps| - 1], sentences[..|gaps| - 1]) + gaps[|gaps| - 1] + sentences[|gaps| - 1]
  }

  lemma WovenSnoc(gaps: seq<string>, sentences: seq<string>, gap: string, sentence: string)
    requires |gaps| == |sentences|
    ensures Woven(gaps + [gap], sentences + [sentence]) == Woven(gaps, sentences) + gap + sentence
  {
    assert (gaps + [gap])[..|gaps|] == gaps && (sentences + [sentence])[..|gaps|] == sentences;
  }

  lemma BlankJoined(a: string, b: string)
    requires Blank(a) && Blank(b)
    ensures Blank(a + b)
  {
  }

  lemma InFour(s: string, lo: nat, hi: nat, cut: nat)
    requires lo <= hi <= cut <= |s|
    ensures s == s[..lo] + s[lo..hi] + s[hi..cut] + s[cut..]
    ensures s == s[..cut] + s[cut..]
  {
  }

  lemma Regroup(w: string, rest: string, a: string, b: string, c: string, d: string)
    ensures w + rest + (a + b + c + d) == w + (rest + a) + b + c + d
    ensures w + rest + (a + b) == w + (rest + a) + b
  {
  }

  /** The sentences stand in the text of the tokens in order and whole, with only whitespace between
      them, and the buffer stands at its end. */
  lemma {:induction false} SentencesStandInText(tokens: seq<string>) returns (gaps: seq<string>, rest: string)
    requires !After(tokens).crashed
    ensures var s := After(tokens);
            && |gaps| == |s.sentences| && AllBlank(gaps) && Blank(rest)
            && Flatten(tokens) == Woven(gaps, s.sentences) + rest + s.buffer
  {
    if tokens == [] {
      gaps, rest := [], [];
    } else {
      var front, token := tokens[..|tokens| - 1], tokens[|tokens| - 1];
      var s := After(front);
      var joined := s.buffer + token;
      gaps, rest := SentencesStandInText(front);
      var woven := Woven(gaps, s.sentences);
      Assoc(woven + rest, s.buffer, token);
      assert Flatten(tokens) == woven + rest + joined;
      gaps, rest := NextSentence(gaps, s.sentences, rest, joined);
    }
  }

  /** One more token. */
  lemma NextSentence(gaps: seq<string>, sentences: seq<string>, rest: string, joined: string)
    returns (gaps': seq<string>, rest': string)
    requires |gaps| == |sentences| && AllBlank(gaps) && Blank(rest)
    ensures var (r, kept) := Outcome(joined);
            var sentences' := if r.Sentence? then sentences + [r.text] else sentences;
            && |gaps'| == |sentences'| && AllBlank(gaps') && Blank(rest')
            && Woven(gaps, sentences) + rest + joined == Woven(gaps', sentences') + rest' + kept
  {
    var lo, hi, cut := SentenceIsSlice(joined);
    InFour(joined, lo, hi, cut);
    var woven := Woven(gaps, sentences);
    if Outcome(joined).0.Sentence? {
      gaps', rest' := gaps + [rest + joined[..lo]], joined[hi..cut];
      BlankJoined(rest, joined[..lo]);
      WovenSnoc(gaps, sentences, rest + joined[..lo], joined[lo..hi]);
      Regroup(woven, rest, joined[..lo], joined[lo..hi], joined[hi..cut], joined[cut..]);
    } else {
      gaps', rest' := gaps, rest + joined[..cut];
      BlankJoined(rest, joined[..cut]);
      Regroup(woven, rest, joined[..cut], joined[cut..], [], []);
    }
  }

  /** On every stream on which it does not crash, what the generator yields is the input cut into
      pieces: whitespace, a sentence, whitespace, a sentence, and so on, and whitespace at the end. */
  lemma YieldedIsInputCut(tokens: seq<string>) returns (gaps: seq<string>, rest: string)
    requires !After(tokens).crashed
    ensures |gaps| == |Yielded(tokens)| && AllBlank(gaps) && Blank(rest)
    ensures Flatten(tokens) == Woven(gaps, Yielded(tokens)) + rest
  {
    var s := After(tokens);
    gaps, rest := SentencesStandInText(tokens);
    var woven := Woven(gaps, s.sentences);
    StripFacts(s.buffer);
    if Strip(s.buffer) == [] {
      Assoc(woven, rest, s.buffer);
      BlankJoined(rest, s.buffer);
      rest := rest + s.buffer;
    } else {
      var lo := SkipSpaces(s.buffer, 0);
      var hi := ContentEnd(s.buffer, lo, |s.buffer|);
      InFour(s.buffer, lo, hi, |s.buffer|);
      Regroup(woven, rest, s.buffer[..lo], s.buffer[lo..hi], s.buffer[hi..|s.buffer|], s.buffer[|s.buffer|..]);
      BlankJoined(rest, s.buffer[..lo]);
      WovenSnoc(gaps, s.sentences, rest + s.buffer[..lo], s.buffer[lo..hi]);
      gaps, rest := gaps + [rest + s.buffer[..lo]], s.buffer[hi..];
    }
  }

  // ---------------------------------------------------------------------------------------
  // When a stream crashes, in terms of its tokens

  /** The text after the last ending. */
  function AfterEnding(s: string): string { s[LastEnding(s, |s|) + 1..] }

  predicate Closed(head: string) { head == [] || IsEnding(head[|head| - 1]) }

  lemma {:induction false} ShiftedEnding(head: string, s: string, n: nat)
    requires Closed(head) && n <= |s|
    ensures LastEnding(head + s, |head| + n) == |head| + LastEnding(s, n)
    decreases n
  {
    if n > 0 {
      assert (head + s)[|head| + n - 1] == s[n - 1];
      ShiftedEnding(head, s, n - 1);
    } else if head != [] {
      assert (head + s)[|head| - 1] == head[|head| - 1];
    }
  }

  lemma ShiftedDrop(head: string, s: string, n: nat)
    requires n <= |s|
    ensures (head + s)[|head| + n..] == s[n..]
  {
  }

  /** Text that is empty or closed by an ending does not matter for what follows it. */
  lemma ClosedPrefix(head: string, s: string)
    requires Closed(head)
    ensures AfterEnding(head + s) == AfterEnding(s)
  {
    ShiftedEnding(head, s, |s|);
    ShiftedDrop(head, s, LastEnding(s, |s|) + 1);
  }

  lemma TailOfTail(x: string, t: string)
    ensures AfterEnding(AfterEnding(x) + t) == AfterEnding(x + t)
  {
    LastEndingIsLast(x, |x|);
    var q := LastEnding(x, |x|) + 1;
    var head := x[..q];
    assert q > 0 ==> head[q - 1] == x[q - 1];
    assert head + x[q..] == x;
    Assoc(head, x[q..], t);
    ClosedPrefix(head, x[q..] + t);
  }

  /** As long as nothing crashed, the buffer is the text since the last ending. */
  lemma {:induction false} BufferIsTail(tokens: seq<string>)
    requires !After(tokens).crashed
    ensures After(tokens).buffer == AfterEnding(Flatten(tokens))
  {
    if tokens != [] {
      var front, token := tokens[..|tokens| - 1], tokens[|tokens| - 1];
      BufferIsTail(front);
      TailOfTail(Flatten(front), token);
      KeptIsTail(After(front).buffer + token);
    }
  }

  lemma KeptIsTail(joined: string)
    ensures Outcome(joined).1 == AfterEnding(joined)
  {
    assert joined[0..] == joined;
  }

  /** Adding token `n` crashes: with the text since the last ending it makes a blank run that
      ends late. */
  ghost predicate CrashesAt(tokens: seq<string>, n: nat)
    requires n < |tokens|
  {
    LateBlankEnding(AfterEnding(Flatten(tokens[..n])) + tokens[n])
  }

  lemma SameInPrefix(tokens: seq<string>, k: nat, n: nat)
    requires n < k <= |tokens|
    ensures CrashesAt(tokens[..k], n) <==> CrashesAt(tokens, n)
  {
    assert tokens[..k][..n] == tokens[..n];
  }

  lemma LastTokenCrashes(tokens: seq<string>)
    requires tokens != [] && !After(tokens[..|tokens| - 1]).crashed
    ensures After(tokens).crashed <==> CrashesAt(tokens, |tokens| - 1)
  {
    var k := |tokens| - 1;
    BufferIsTail(tokens[..k]);
    CrashExactlyWhen(After(tokens[..k]).buffer + tokens[k]);
  }

  /** A stream crashes exactly when some token does, judged by the tokens alone. */
  lemma {:induction false} StreamCrashesExactlyWhen(tokens: seq<string>)
    ensures After(tokens).crashed <==> exists n :: 0 <= n < |tokens| && CrashesAt(tokens, n)
  {
    if tokens != [] {
      var k := |tokens| - 1;
      StreamCrashesExactlyWhen(tokens[..k]);
      forall n | 0 <= n < k ensures CrashesAt(tokens[..k], n) <==> CrashesAt(tokens, n) {
        SameInPrefix(tokens, k, n);
      }
      if !After(tokens[..k]).crashed {
        LastTokenCrashes(tokens);
      }
    }
  }
}
