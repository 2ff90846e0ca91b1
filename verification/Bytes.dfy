/** Bytes, and little-endian integers. */
module Bytes {

  type byte = x: int | 0 <= x < 256

  type bytes = seq<byte>

  const TWO32: int := 0x1_0000_0000

  function U16(n: nat): (r: bytes)
    ensures |r| == 2
  {
    [n % 256, n / 256 % 256]
  }

  /** The low 32 bits, least significant byte first. */
  function U32(n: nat): (r: bytes)
    ensures |r| == 4
  {
    [n % 256, n / 256 % 256, n / 65536 % 256, n / 16777216 % 256]
  }

  /** The 16-bit number at `o`. */
  function U16At(b: bytes, o: nat): (n: nat)
    requires o + 2 <= |b|
    ensures n < 65536
  {
    (b[o] as int) + 256 * (b[o + 1] as int)
  }

  /** The 32-bit number at `o`. */
  function U32At(b: bytes, o: nat): (n: nat)
    requires o + 4 <= |b|
    ensures n < TWO32
  {
    (b[o] as int) + 256 * (b[o + 1] as int) + 65536 * (b[o + 2] as int) + 16777216 * (b[o + 3] as int)
  }

  /** The least significant byte comes first. */
  lemma LittleEndian(a: byte, b: byte, c: byte, d: byte)
    ensures U16(a + 256 * b) == [a, b]
    ensures U32(a + 256 * (b + 256 * (c + 256 * d))) == [a, b, c, d]
  {
    var y := c + 256 * d;
    var x := b + 256 * y;
    var n := a + 256 * x;
    assert n / 256 == x && x / 256 == y && y / 256 == d;
    assert n / 65536 == y && n / 16777216 == d;
  }

  lemma U16RoundTrip(n: nat)
    requires n < 65536
    ensures U16At(U16(n), 0) == n
  {
  }

  lemma U32RoundTrip(n: nat)
    ensures U32At(U32(n), 0) == n % TWO32
  {
    assert n / 65536 == n / 256 / 256 && n / 16777216 == n / 256 / 256 / 256;
  }

  lemma SmallU32RoundTrip(n: nat)
    requires n < TWO32
    ensures U32At(U32(n), 0) == n
  {
    SmallRemainder(n);
    U32RoundTrip(n);
  }

  lemma SmallRemainder(n: nat)
    requires n < TWO32
    ensures n % TWO32 == n
  {
  }

  type int16 = x: int | -32768 <= x < 32768

  /** Two's complement. */
  function I16(s: int16): (r: bytes)
    ensures |r| == 2
  {
    U16(if s < 0 then s + 65536 else s)
  }

  function FromI16(b: bytes): int16
    requires |b| == 2
  {
    var n := U16At(b, 0);
    if n < 32768 then n else n - 65536
  }

  lemma I16RoundTrip(s: int16)
    ensures FromI16(I16(s)) == s
  {
    U16RoundTrip(if s < 0 then s + 65536 else s);
  }

  /** `struct.pack("<nh", ...)`. */
  function Pack(samples: seq<int16>): (r: bytes)
    ensures |r| == 2 * |samples|
  {
    seq(2 * |samples|, k requires 0 <= k < 2 * |samples| => I16(samples[k / 2])[k % 2])
  }

  /** `struct.unpack("<nh", ...)` of an even number of bytes. */
  function Unpack(data: bytes): (r: seq<int16>)
    requires |data| % 2 == 0
    ensures |r| == |data| / 2
  {
    seq(|data| / 2, i requires 0 <= i < |data| / 2 => FromI16([data[2 * i], data[2 * i + 1]]))
  }

  /** Sample `i` stands at its place, as an unsigned number with the least significant byte first. */
  lemma SampleAt(samples: seq<int16>, i: nat)
    requires i < |samples|
    ensures var low: int, high: int, sample: int := Pack(samples)[2 * i], Pack(samples)[2 * i + 1], samples[i];
            low + 256 * high == if sample < 0 then sample + 65536 else sample
  {
    var b, sample: int := I16(samples[i]), samples[i];
    assert Pack(samples)[2 * i] == b[0] && Pack(samples)[2 * i + 1] == b[1];
    U16RoundTrip(if sample < 0 then sample + 65536 else sample);
  }

  lemma PackRoundTrip(samples: seq<int16>)
    ensures Unpack(Pack(samples)) == samples
  {
    forall i | 0 <= i < |samples| ensures Unpack(Pack(samples))[i] == samples[i] {
      var b := I16(samples[i]);
      assert Pack(samples)[2 * i] == b[0] && Pack(samples)[2 * i + 1] == b[1];
      assert [b[0], b[1]] == b;
      I16RoundTrip(samples[i]);
    }
  }

  lemma DropDrop<T>(s: seq<T>, a: nat, b: nat)
    requires a + b <= |s|
    ensures s[a..][b..] == s[a + b..]
  {
  }

  lemma DropPrefix<T>(x: seq<T>, y: seq<T>)
    ensures (x + y)[|x|..] == y && (x + y)[..|x|] == x
  {
  }
}
