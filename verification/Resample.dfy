/** Downmixing and resampling of 16-bit PCM, with exact rational ratios. */
module Resample {
  import opened Arith
  import opened Bytes

  datatype Outcome = Ok(data: bytes) | Error   // struct.error, ZeroDivisionError or ValueError

  function Min(a: nat, b: nat): nat { if a < b then a else b }

  function Sum(s: seq<int16>): (r: int)
    ensures -32768 * |s| <= r <= 32767 * |s|
  {
    if s == [] then 0 else Sum(s[..|s| - 1]) + s[|s| - 1]
  }

  /** Floor average of a group over the full channel count, also when the last group is short. */
  function Average(group: seq<int16>, channels: nat): int16
    requires channels >= 1 && |group| <= channels
  {
    AverageFits(Sum(group), |group|, channels);
    Sum(group) / channels
  }

  lemma AverageFits(sum: int, n: nat, channels: nat)
    requires channels >= 1 && n <= channels && -32768 * n <= sum <= 32767 * n
    ensures -32768 <= sum / channels <= 32767
  {
    assert -32768 * channels <= sum <= 32767 * channels;
    var q := sum / channels;
    assert q * channels <= sum < (q + 1) * channels;
    FactorOrder(q, 32768, channels);
    FactorOrder(-32769, q, channels);
  }

  /** The samples in groups of `m`; the last group may be short. */
  function InGroups<T>(s: seq<T>, m: nat): seq<seq<T>>
    requires m >= 1
  {
    if s == [] then [] else [s[..Min(m, |s|)]] + InGroups(s[Min(m, |s|)..], m)
  }

  lemma {:induction false} GroupsAreShort<T>(s: seq<T>, m: nat)
    requires m >= 1
    ensures forall g :: g in InGroups(s, m) ==> |g| <= m
  {
    if s != [] {
      GroupsAreShort(s[Min(m, |s|)..], m);
    }
  }

  function Averages(groups: seq<seq<int16>>, channels: nat): (r: seq<int16>)
    requires channels >= 1 && forall g :: g in groups ==> |g| <= channels
    ensures |r| == |groups|
  {
    seq(|groups|, i requires 0 <= i < |groups| => Average(groups[i], channels))
  }

  function Downmix(s: seq<int16>, channels: nat): seq<int16>
    requires channels >= 1
  {
    GroupsAreShort(s, channels);
    Averages(InGroups(s, channels), channels)
  }

  /** `samples[::step]`. */
  function Decimate(s: seq<int16>, step: nat): seq<int16>
    requires step >= 1
  {
    if s == [] then [] else [s[0]] + Decimate(s[Min(step, |s|)..], step)
  }

  /** Integer part of a fraction, towards zero. */
  function Truncate(a: int, b: nat): int
    requires b >= 1
  {
    if a >= 0 then a / b else -((-a) / b)
  }

  function OutLength(n: nat, src: nat, dst: nat): nat
    requires src >= 1
  {
    n * dst / src
  }

  function Left(i: nat, src: nat, dst: nat): nat
    requires dst >= 1
  {
    i * src / dst
  }

  function Right(i: nat, n: nat, src: nat, dst: nat): int
    requires dst >= 1
  {
    if Left(i, src, dst) + 1 < n - 1 then Left(i, src, dst) + 1 else n - 1
  }

  /** Every interpolation index is inside the input. */
  lemma IndexInBounds(i: nat, n: nat, src: nat, dst: nat)
    requires src >= 1 && dst >= 1 && i < OutLength(n, src, dst)
    ensures Left(i, src, dst) < n && 0 <= Right(i, n, src, dst) < n
    ensures Left(i, src, dst) <= Right(i, n, src, dst) <= Left(i, src, dst) + 1
  {
    var m, l := OutLength(n, src, dst), Left(i, src, dst);
    QuotientTimes(n * dst, src);
    MulMono(i + 1, m, src);
    Distribute(src, i, 1);
    QuotientTimes(i * src, dst);
    FactorOrder(l, n, dst);
  }

  /** The value between two samples, `f` parts of `d` after the first. */
  function Between(a: int, b: int, f: nat, d: nat): int
    requires d >= 1 && f < d
  {
    Truncate(a * (d - f) + b * f, d)
  }

  /** An interpolated value lies between its neighbours. */
  lemma BetweenIsBetween(a: int, b: int, f: nat, d: nat)
    requires d >= 1 && f < d
    ensures a <= Between(a, b, f, d) <= b || b <= Between(a, b, f, d) <= a
  {
    if a <= b {
      Convex(a, b, f, d - f);
      TruncateBetween(a * (d - f) + b * f, d, a, b);
    } else {
      Convex(b, a, d - f, f);
      TruncateBetween(a * (d - f) + b * f, d, b, a);
    }
  }

  lemma Convex(a: int, b: int, f: nat, g: nat)
    requires a <= b
    ensures a * (f + g) <= a * g + b * f <= b * (f + g)
  {
    MulMono(a, b, f);
    MulMono(a, b, g);
    Distribute(a, f, g);
    Distribute(b, f, g);
  }

  lemma TruncateBetween(x: int, d: nat, lo: int, hi: int)
    requires d >= 1 && lo * d <= x <= hi * d
    ensures lo <= Truncate(x, d) <= hi
  {
    if x >= 0 {
      QuotientBounds(x, d, lo, hi);
    } else {
      assert (-hi) * d <= -x <= (-lo) * d;
      QuotientBounds(-x, d, -hi, -lo);
    }
  }

  lemma QuotientBounds(x: nat, d: nat, lo: int, hi: int)
    requires d >= 1 && lo * d <= x <= hi * d
    ensures lo <= x / d <= hi
  {
    var q := x / d;
    assert q * d <= x < (q + 1) * d;
    assert (hi + 1) * d == hi * d + d;
    FactorOrder(q, hi + 1, d);
    FactorOrder(lo, q + 1, d);
  }

  function InterpolateAt(s: seq<int16>, src: nat, dst: nat, i: nat): int16
    requires src >= 1 && dst >= 1 && i < OutLength(|s|, src, dst)
  {
    IndexInBounds(i, |s|, src, dst);
    var a, b, f := s[Left(i, src, dst)], s[Right(i, |s|, src, dst)], i * src % dst;
    BetweenIsBetween(a, b, f, dst);
    Between(a, b, f, dst)
  }

  function Interpolate(s: seq<int16>, src: nat, dst: nat): (r: seq<int16>)
    requires src >= 1 && dst >= 1
    ensures |r| == OutLength(|s|, src, dst)
  {
    seq(OutLength(|s|, src, dst), i requires 0 <= i < OutLength(|s|, src, dst) => InterpolateAt(s, src, dst, i))
  }

  /** What the conversion means for a whole number of samples. */
  function Converted(s: seq<int16>, src: nat, dst: nat, channels: nat): seq<int16>
    requires src >= 1 && dst >= 1 && channels >= 1
  {
    var mono := if channels != 1 then Downmix(s, channels) else s;
    if src % dst == 0 then (if src / dst >= 1 then Decimate(mono, src / dst) else []) else Interpolate(mono, src, dst)
  }

  method DownmixLoop(samples: seq<int16>, channels: nat) returns (mono: seq<int16>)
    requires channels >= 1
    ensures mono == Downmix(samples, channels)
  {
    mono := [];
    var i := 0;
    ghost var done: seq<seq<int16>> := [];
    ghost var all := InGroups(samples, channels);
    assert samples[0..] == samples;
    while i < |samples|
      invariant i <= |samples| && all == done + InGroups(samples[i..], channels)
      invariant |mono| == |done| && forall k :: 0 <= k < |done| ==> |done[k]| <= channels && mono[k] == Average(done[k], channels)
      decreases |samples| - i
    {
      var next := if i + channels < |samples| then i + channels else |samples|;
      GroupAt(samples, i, next, channels);
      Regroup(done, samples[i..next], InGroups(samples[next..], channels));
      mono := mono + [Average(samples[i..next], channels)];
      done := done + [samples[i..next]];
      i := next;
    }
    assert samples[i..] == [] && done + [] == done;
  }

  lemma Regroup<T>(a: seq<T>, x: T, b: seq<T>)
    ensures a + ([x] + b) == a + [x] + b
  {
  }

  lemma GroupAt<T>(samples: seq<T>, i: nat, next: nat, channels: nat)
    requires channels >= 1 && i < |samples| && next == i + Min(channels, |samples| - i)
    ensures InGroups(samples[i..], channels) == [samples[i..next]] + InGroups(samples[next..], channels)
  {
    var s := samples[i..];
    assert s[..next - i] == samples[i..next] && s[next - i..] == samples[next..];
  }

  /** The converter, with the exceptions the code lets through. */
  method ResamplePcm16(data: bytes, src: nat, dst: nat, channels: nat) returns (r: Outcome)
    ensures src == dst ==> r == Ok(data)
    ensures src != dst ==> (r.Error? <==> |data| % 2 == 1 || src == 0 || dst == 0 || channels == 0)
    ensures src != dst && r.Ok? ==> r.data == Pack(Converted(Unpack(data), src, dst, channels))
  {
    if src == dst {
      return Ok(data);
    }
    if |data| % 2 == 1 || channels == 0 {
      return Error;
    }
    var samples := Unpack(data);
    if channels != 1 {
      samples := DownmixLoop(samples, channels);
    }
    if dst == 0 || src == 0 {
      return Error;
    }
    if src % dst == 0 {
      StepIsPositive(src, dst);
      return Ok(Pack(Decimate(samples, src / dst)));
    }
    var out := InterpolateLoop(samples, src, dst);
    r := Ok(Pack(out));
  }

  method InterpolateLoop(samples: seq<int16>, src: nat, dst: nat) returns (out: seq<int16>)
    requires src >= 1 && dst >= 1
    ensures out == Interpolate(samples, src, dst)
  {
    out := [];
    for i := 0 to OutLength(|samples|, src, dst)
      invariant |out| == i && out == Interpolate(samples, src, dst)[..i]
    {
      out := out + [InterpolateAt(samples, src, dst, i)];
    }
  }

  lemma StepIsPositive(src: nat, dst: nat)
    requires src >= 1 && dst >= 1 && src % dst == 0
    ensures src / dst >= 1
  {
    QuotientTimes(src, dst);
  }

  // ---------------------------------------------------------------------------------------

  /** n divided by m, rounded up. */
  function Ceiling(n: nat, m: nat): nat
    requires m >= 1
  {
    (n + m - 1) / m
  }

  lemma CeilingStep(n: nat, m: nat)
    requires m >= 1 && n >= 1
    ensures Ceiling(n, m) == 1 + if n >= m then Ceiling(n - m, m) else 0
    ensures Ceiling(0, m) == 0
  {
    SmallQuotient(m - 1, m);
    DivideStep(n - 1, m);
    if n < m {
      SmallQuotient(n - 1, m);
    }
  }

  /** Groups of `m` that `n` items fill, the last one possibly short. */
  function Groups(n: nat, m: nat): nat
    requires m >= 1
  {
    if n == 0 then 0 else 1 + Groups(n - Min(m, n), m)
  }

  lemma {:induction false} GroupsIsCeiling(n: nat, m: nat)
    requires m >= 1
    ensures Groups(n, m) == Ceiling(n, m)
  {
    if n == 0 {
      SmallQuotient(m - 1, m);
    } else {
      GroupsIsCeiling(n - Min(m, n), m);
      CeilingStep(n, m);
    }
  }

  lemma {:induction false} DecimateGroups(s: seq<int16>, step: nat)
    requires step >= 1
    ensures |Decimate(s, step)| == Groups(|s|, step)
  {
    if s != [] {
      DecimateGroups(s[Min(step, |s|)..], step);
    }
  }

  lemma {:induction false} InGroupsLength<T>(s: seq<T>, m: nat)
    requires m >= 1
    ensures |InGroups(s, m)| == Groups(|s|, m)
  {
    if s != [] {
      var rest := s[Min(m, |s|)..];
      InGroupsLength(rest, m);
      InGroupsUnfolds(s, m);
      assert |rest| == |s| - Min(m, |s|);
    }
  }

  lemma InGroupsUnfolds<T>(s: seq<T>, m: nat)
    requires m >= 1 && s != []
    ensures InGroups(s, m) == [s[..Min(m, |s|)]] + InGroups(s[Min(m, |s|)..], m)
  {
  }

  /** Decimation keeps the ceiling of n / step samples, and downmixing of n / channels. */
  lemma Lengths(s: seq<int16>, step: nat, channels: nat)
    requires step >= 1 && channels >= 1
    ensures |Decimate(s, step)| == Ceiling(|s|, step)
    ensures |Downmix(s, channels)| == Ceiling(|s|, channels)
  {
    DecimateGroups(s, step);
    InGroupsLength(s, channels);
    GroupsIsCeiling(|s|, step);
    GroupsIsCeiling(|s|, channels);
  }

  /** `i * m`, by repeated addition. */
  function Offset(i: nat, m: nat): nat { if i == 0 then 0 else Offset(i - 1, m) + m }

  lemma {:induction false} OffsetIsProduct(i: nat, m: nat)
    ensures Offset(i, m) == i * m
  {
    if i > 0 {
      OffsetIsProduct(i - 1, m);
      Distribute(m, i - 1, 1);
    }
  }

  /** Group `i` holds the samples from `i * m` on, `m` of them or as many as there are. */
  lemma {:induction false} GroupIs<T>(s: seq<T>, m: nat, i: nat)
    requires m >= 1 && i < |InGroups(s, m)|
    ensures Offset(i, m) < |s| && InGroups(s, m)[i] == s[Offset(i, m)..Min(Offset(i, m) + m, |s|)]
    decreases i
  {
    if i > 0 {
      var rest := s[Min(m, |s|)..];
      InGroupsUnfolds(s, m);
      assert InGroups(s, m)[i] == InGroups(rest, m)[i - 1];
      GroupIs(rest, m, i - 1);
      var k := Offset(i - 1, m);
      ShiftedSlice(s, m, k, Min(k + m, |rest|));
    }
  }

  lemma ShiftedSlice<T>(s: seq<T>, n: nat, a: nat, b: nat)
    requires a <= b && n + b <= |s|
    ensures s[n..][a..b] == s[n + a..n + b]
  {
  }

  /** Mono sample `i` is the floor average, over the channel count, of the samples of frame `i`. */
  lemma DownmixAt(s: seq<int16>, channels: nat, i: nat)
    requires channels >= 1 && i < |Downmix(s, channels)|
    ensures i * channels < |s| && i * channels <= Min((i + 1) * channels, |s|)
    ensures var sum := Sum(s[i * channels..Min((i + 1) * channels, |s|)]);
            Downmix(s, channels)[i] * channels <= sum < (Downmix(s, channels)[i] + 1) * channels
  {
    GroupsAreShort(s, channels);
    GroupIs(s, channels, i);
    OffsetIsProduct(i, channels);
    Distribute(channels, i, 1);
    FloorOf(Sum(InGroups(s, channels)[i]), channels);
  }

  lemma FloorOf(sum: int, n: nat)
    requires n >= 1
    ensures sum / n * n <= sum < (sum / n + 1) * n
  {
  }

  /** Decimation keeps every step-th sample. */
  lemma {:induction false} DecimateAt(s: seq<int16>, step: nat, i: nat)
    requires step >= 1 && i < |Decimate(s, step)|
    ensures i * step < |s| && Decimate(s, step)[i] == s[i * step]
    decreases i
  {
    if i > 0 {
      var rest := s[Min(step, |s|)..];
      assert Decimate(s, step) == [s[0]] + Decimate(rest, step);
      DecimateAt(rest, step, i - 1);
      Distribute(step, i - 1, 1);
      assert rest != [] && rest[(i - 1) * step] == s[(i - 1) * step + step];
    }
  }

  /** Interpolation: floor(n * dst / src) samples, each between its two neighbours, which are
      in the input and next to each other. */
  lemma InterpolateIsBetween(s: seq<int16>, src: nat, dst: nat, i: nat)
    requires src >= 1 && dst >= 1 && i < |Interpolate(s, src, dst)|
    ensures |Interpolate(s, src, dst)| == |s| * dst / src
    ensures var l, r := Left(i, src, dst), Right(i, |s|, src, dst);
            && 0 <= l <= r <= l + 1 && r < |s| && l * dst <= i * src < (l + 1) * dst
            && (s[l] <= Interpolate(s, src, dst)[i] <= s[r] || s[r] <= Interpolate(s, src, dst)[i] <= s[l])
  {
    IndexInBounds(i, |s|, src, dst);
    BetweenIsBetween(s[Left(i, src, dst)], s[Right(i, |s|, src, dst)], i * src % dst, dst);
  }

  // ---------------------------------------------------------------------------------------
  // The whole conversion

  /** `q` is `x / d` without its fraction. */
  predicate IsWholePart(q: int, x: int, d: nat) {
    if x >= 0 then q * d <= x < (q + 1) * d else (q - 1) * d < x <= q * d
  }

  lemma TruncateExactly(x: int, d: nat)
    requires d >= 1
    ensures IsWholePart(Truncate(x, d), x, d)
  {
    if x >= 0 {
      FloorOf(x, d);
    } else {
      FloorOf(-x, d);
      Negated(-x / d, d);
    }
  }

  lemma Negated(p: int, d: nat)
    ensures -p * d == -(p * d) && (-p - 1) * d == -((p + 1) * d)
  {
  }

  /** The sum of a list is made of its numbers. */
  lemma {:induction false} SumOfConcat(a: seq<int16>, b: seq<int16>, x: int16)
    ensures Sum(a + b) == Sum(a) + Sum(b)
    ensures Sum([x]) == x
  {
    assert [x][..0] == [];
    if b == [] {
      assert a + b == a;
    } else {
      SumOfConcat(a, b[..|b| - 1], x);
      assert (a + b)[..|a + b| - 1] == a + b[..|b| - 1];
    }
  }

  /** One sample for each frame of `channels` samples, the last one possibly short: the floor of the sum
      divided by the channel count. A single channel is left as it is. */
  ghost predicate IsMono(s: seq<int16>, channels: nat, mono: seq<int16>) {
    if channels == 1 then mono == s
    else
      && |s| <= |mono| * channels < |s| + channels
      && forall i :: 0 <= i < |mono| ==> IsFloorAverage(s, channels, i, mono[i])
  }

  ghost predicate IsFloorAverage(s: seq<int16>, channels: nat, i: nat, average: int) {
    && i * channels < |s| && i * channels <= Min((i + 1) * channels, |s|)
    && var sum := Sum(s[i * channels..Min((i + 1) * channels, |s|)]);
       average * channels <= sum < (average + 1) * channels
  }

  /** Every step-th sample, from the first one on. */
  ghost predicate IsDecimated(s: seq<int16>, step: nat, out: seq<int16>) {
    && |s| <= |out| * step < |s| + step
    && forall i :: 0 <= i < |out| ==> i * step < |s| && out[i] == s[i * step]
  }

  /** As many samples as fit, each the weighted mean, without its fraction, of the sample at or before its
      place and the next one, the last sample having itself as next. */
  ghost predicate IsInterpolated(s: seq<int16>, src: nat, dst: nat, out: seq<int16>) {
    && |out| * src <= |s| * dst < (|out| + 1) * src
    && forall i :: 0 <= i < |out| ==> IsMean(s, src, dst, i, out[i])
  }

  ghost predicate IsMean(s: seq<int16>, src: nat, dst: nat, i: nat, value: int) {
    exists l :: IsMeanAt(s, src, dst, i, l, value)
  }

  ghost predicate IsMeanAt(s: seq<int16>, src: nat, dst: nat, i: nat, l: nat, value: int) {
    && l < |s| && l * dst <= i * src < (l + 1) * dst
    && var next, f := s[Min(l + 1, |s| - 1)], i * src - l * dst;
       IsWholePart(value, s[l] * (dst - f) + next * f, dst)
  }

  lemma CeilingIs(n: nat, m: nat)
    requires m >= 1
    ensures n <= Ceiling(n, m) * m < n + m
  {
    FloorOf(n + m - 1, m);
    Distribute(m, Ceiling(n, m), 1);
  }

  lemma DownmixIsMono(s: seq<int16>, channels: nat)
    requires channels >= 2
    ensures IsMono(s, channels, Downmix(s, channels))
  {
    Lengths(s, 1, channels);
    CeilingIs(|s|, channels);
    forall i | 0 <= i < |Downmix(s, channels)| ensures IsFloorAverage(s, channels, i, Downmix(s, channels)[i]) {
      DownmixAt(s, channels, i);
    }
  }

  lemma DecimateIsDecimated(s: seq<int16>, step: nat)
    requires step >= 1
    ensures IsDecimated(s, step, Decimate(s, step))
  {
    Lengths(s, step, 1);
    CeilingIs(|s|, step);
    forall i | 0 <= i < |Decimate(s, step)| ensures i * step < |s| && Decimate(s, step)[i] == s[i * step] {
      DecimateAt(s, step, i);
    }
  }

  lemma MeanAt(s: seq<int16>, src: nat, dst: nat, i: nat)
    requires src >= 1 && dst >= 1 && i < OutLength(|s|, src, dst)
    ensures IsMeanAt(s, src, dst, i, Left(i, src, dst), InterpolateAt(s, src, dst, i))
  {
    IndexInBounds(i, |s|, src, dst);
    var l, r := Left(i, src, dst), Right(i, |s|, src, dst);
    FloorOf(i * src, dst);
    var f := i * src % dst;
    assert f == i * src - l * dst;
    TruncateExactly(s[l] * (dst - f) + s[r] * f, dst);
  }

  lemma InterpolateIsInterpolated(s: seq<int16>, src: nat, dst: nat)
    requires src >= 1 && dst >= 1
    ensures IsInterpolated(s, src, dst, Interpolate(s, src, dst))
  {
    var out := Interpolate(s, src, dst);
    FloorOf(|s| * dst, src);
    forall i | 0 <= i < |out| ensures IsMean(s, src, dst, i, out[i]) {
      MeanAt(s, src, dst, i);
      assert out[i] == InterpolateAt(s, src, dst, i);
    }
  }

  /** From the samples of all channels to the output: first mono; then every step-th sample when the rate
      is a multiple of the new one, and otherwise interpolation. */
  lemma ConvertedExactly(s: seq<int16>, src: nat, dst: nat, channels: nat) returns (mono: seq<int16>)
    requires src >= 1 && dst >= 1 && channels >= 1
    ensures IsMono(s, channels, mono)
    ensures var out := Converted(s, src, dst, channels);
            if src % dst == 0 then IsDecimated(mono, src / dst, out) else IsInterpolated(mono, src, dst, out)
  {
    mono := s;
    if channels != 1 {
      mono := Downmix(s, channels);
      DownmixIsMono(s, channels);
    }
    if src % dst == 0 {
      StepIsPositive(src, dst);
      DecimateIsDecimated(mono, src / dst);
    } else {
      InterpolateIsInterpolated(mono, src, dst);
    }
  }
}
