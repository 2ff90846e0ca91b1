/** Strings as the program sees them: Python's whitespace test and `strip`, erasure of
    whitespace, concatenation of lists, and decimal printing of integers. */
module Text {

  datatype Option<+T> = None | Some(value: T)

  /** The characters for which Python's `str.isspace` holds. */
  predicate IsSpace(c: char) {
    var n := c as int;
    || 0x09 <= n <= 0x0D || 0x1C <= n <= 0x20 || n == 0x85 || n == 0xA0 || n == 0x1680
    || 0x2000 <= n <= 0x200A || n == 0x2028 || n == 0x2029 || n == 0x202F || n == 0x205F || n == 0x3000
  }

  predicate Blank(s: string) {
    forall i :: 0 <= i < |s| ==> IsSpace(s[i])
  }

  /** Index of the first character at or after `i` that is not whitespace, or the length. */
  function SkipSpaces(s: string, i: nat): (n: nat)
    requires i <= |s|
    ensures i <= n <= |s|
    decreases |s| - i
  {
    if i < |s| && IsSpace(s[i]) then SkipSpaces(s, i + 1) else i
  }

  /** One past the last character of `s[lo..hi]` that is not whitespace, or `lo`. */
  function ContentEnd(s: string, lo: nat, hi: nat): (n: nat)
    requires lo <= hi <= |s|
    ensures lo <= n <= hi
    decreases hi
  {
    if lo < hi && IsSpace(s[hi - 1]) then ContentEnd(s, lo, hi - 1) else hi
  }

  /** Python's `str.strip()`. */
  function Strip(s: string): (r: string)
    ensures |r| <= |s|
  {
    var lo := SkipSpaces(s, 0);
    s[lo..ContentEnd(s, lo, |s|)]
  }

  lemma {:induction false} SkipSpacesFacts(s: string, i: nat)
    requires i <= |s|
    ensures forall k :: i <= k < SkipSpaces(s, i) ==> IsSpace(s[k])
    ensures SkipSpaces(s, i) < |s| ==> !IsSpace(s[SkipSpaces(s, i)])
    decreases |s| - i
  {
    if i < |s| && IsSpace(s[i]) {
      SkipSpacesFacts(s, i + 1);
    }
  }

  lemma {:induction false} ContentEndFacts(s: string, lo: nat, hi: nat)
    requires lo <= hi <= |s|
    ensures forall k :: ContentEnd(s, lo, hi) <= k < hi ==> IsSpace(s[k])
    ensures lo < ContentEnd(s, lo, hi) ==> !IsSpace(s[ContentEnd(s, lo, hi) - 1])
    decreases hi
  {
    if lo < hi && IsSpace(s[hi - 1]) {
      ContentEndFacts(s, lo, hi - 1);
    }
  }

  predicate Trimmed(s: string, lo: nat, hi: nat)
    requires lo <= hi <= |s|
  {
    && (forall k :: 0 <= k < lo ==> IsSpace(s[k]))
    && (forall k :: hi <= k < |s| ==> IsSpace(s[k]))
    && (lo < hi ==> !IsSpace(s[lo]) && !IsSpace(s[hi - 1]))
  }

  lemma StripTrims(s: string)
    ensures Trimmed(s, SkipSpaces(s, 0), ContentEnd(s, SkipSpaces(s, 0), |s|))
  {
    SkipSpacesFacts(s, 0);
    ContentEndFacts(s, SkipSpaces(s, 0), |s|);
  }

  lemma BlankExactlyWhen(s: string, lo: nat, hi: nat)
    requires lo <= hi <= |s| && Trimmed(s, lo, hi)
    ensures lo == hi <==> Blank(s)
  {
  }

  /** What is left begins and ends with a character that is not whitespace, and only whitespace
      was cut off on either side. */
  lemma StripFacts(s: string)
    ensures var lo := SkipSpaces(s, 0);
            var hi := ContentEnd(s, lo, |s|);
            Strip(s) == s[lo..hi] && Trimmed(s, lo, hi)
    ensures Strip(s) == [] <==> Blank(s)
  {
    StripTrims(s);
    BlankExactlyWhen(s, SkipSpaces(s, 0), ContentEnd(s, SkipSpaces(s, 0), |s|));
  }

  /** The first `n` characters without their whitespace. */
  function EraseTo(s: string, n: nat): string
    requires n <= |s|
    decreases |s|, n
  {
    if n == 0 then [] else if IsSpace(s[n - 1]) then EraseTo(s, n - 1) else EraseTo(s, n - 1) + [s[n - 1]]
  }

  /** The string without its whitespace. */
  function Erase(s: string): string { EraseTo(s, |s|) }

  lemma {:induction false} EraseToPrefix(a: string, b: string, n: nat)
    requires n <= |a|
    ensures EraseTo(a + b, n) == EraseTo(a, n)
    decreases n
  {
    if n > 0 {
      EraseToPrefix(a, b, n - 1);
    }
  }

  lemma {:induction false} EraseToConcat(a: string, b: string, n: nat)
    requires n <= |b|
    ensures EraseTo(a + b, |a| + n) == Erase(a) + EraseTo(b, n)
    decreases n
  {
    if n == 0 {
      EraseToPrefix(a, b, |a|);
    } else {
      EraseToConcat(a, b, n - 1);
      assert (a + b)[|a| + n - 1] == b[n - 1];
    }
  }

  lemma EraseConcat(a: string, b: string)
    ensures Erase(a + b) == Erase(a) + Erase(b)
  {
    EraseToConcat(a, b, |b|);
  }

  lemma {:induction false} EraseToBlank(s: string, n: nat)
    requires Blank(s) && n <= |s|
    ensures EraseTo(s, n) == []
    decreases n
  {
    if n > 0 {
      EraseToBlank(s, n - 1);
    }
  }

  lemma EraseBlank(s: string)
    requires Blank(s)
    ensures Erase(s) == []
  {
    EraseToBlank(s, |s|);
  }

  lemma EraseAround(before: string, middle: string, after: string)
    requires Blank(before) && Blank(after)
    ensures Erase(before + (middle + after)) == Erase(middle)
  {
    EraseConcat(before, middle + after);
    EraseConcat(middle, after);
    EraseBlank(before);
    EraseBlank(after);
  }

  /** Stripping only loses whitespace. */
  lemma EraseStrip(s: string)
    ensures Erase(Strip(s)) == Erase(s)
  {
    var lo := SkipSpaces(s, 0);
    var hi := ContentEnd(s, lo, |s|);
    StripFacts(s);
    EraseAround(s[..lo], s[lo..hi], s[hi..]);
    InThree(s, lo, hi);
  }

  lemma InThree<T>(s: seq<T>, lo: nat, hi: nat)
    requires lo <= hi <= |s|
    ensures s[..lo] + (s[lo..hi] + s[hi..]) == s
  {
  }

  /** The concatenation of a list of sequences. */
  function Flatten<T>(parts: seq<seq<T>>): seq<T> {
    if parts == [] then [] else Flatten(parts[..|parts| - 1]) + parts[|parts| - 1]
  }

  lemma {:induction false} FlattenConcat<T>(a: seq<seq<T>>, b: seq<seq<T>>)
    ensures Flatten(a + b) == Flatten(a) + Flatten(b)
  {
    if b == [] {
      assert a + b == a;
    } else {
      var front, last := b[..|b| - 1], b[|b| - 1];
      FlattenConcat(a, front);
      FlattenSnoc(a + front, last);
      Assoc(a, front, [last]);
      assert front + [last] == b;
      Assoc(Flatten(a), Flatten(front), last);
    }
  }

  lemma FlattenSnoc<T>(a: seq<seq<T>>, x: seq<T>)
    ensures Flatten(a + [x]) == Flatten(a) + x
  {
    assert (a + [x])[..|a|] == a;
  }

  lemma FlattenTake<T>(parts: seq<seq<T>>, n: nat)
    requires n < |parts|
    ensures Flatten(parts[..n + 1]) == Flatten(parts[..n]) + parts[n]
  {
    assert parts[..n + 1] == parts[..n] + [parts[n]];
    FlattenSnoc(parts[..n], parts[n]);
  }

  lemma Assoc<T>(a: seq<T>, b: seq<T>, c: seq<T>)
    ensures a + (b + c) == a + b + c
  {
  }

  function Digit(d: nat): (c: char)
    requires d < 10
  {
    ('0' as int + d) as char
  }

  /** Python's `str(n)` for a non-negative integer. */
  function Decimal(n: nat): (s: string)
    ensures s != []
    ensures forall i :: 0 <= i < |s| ==> '0' <= s[i] <= '9'
  {
    if n < 10 then [Digit(n)] else Decimal(n / 10) + [Digit(n % 10)]
  }

  function ParseDecimal(s: string): nat
    requires forall i :: 0 <= i < |s| ==> '0' <= s[i] <= '9'
  {
    if s == [] then 0
    else 10 * ParseDecimal(s[..|s| - 1]) + (s[|s| - 1] as int - '0' as int)
  }

  lemma {:induction false} DecimalRoundTrip(n: nat)
    ensures ParseDecimal(Decimal(n)) == n
  {
    if n >= 10 {
      DecimalRoundTrip(n / 10);
      assert Decimal(n)[..|Decimal(n)| - 1] == Decimal(n / 10);
    } else {
      assert [Digit(n)][..0] == [];
    }
  }
}
