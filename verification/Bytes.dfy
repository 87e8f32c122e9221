/** Bytes, and the fixed-width little-endian integers of Go's encoding/binary. */
module Bytes {
  import opened Arithmetic

  newtype byte = x: int | 0 <= x < 256

  const UINT16_LIMIT: nat := 0x1_0000
  const UINT32_LIMIT: nat := 0x1_0000_0000
  const UINT64_LIMIT: nat := 0x1_0000_0000_0000_0000

  type uint64 = x: nat | x < UINT64_LIMIT

  /** The zero bytes that Go's make([]byte, n) delivers. */
  function Zeros(n: nat): (s: seq<byte>)
    ensures |s| == n && forall i :: 0 <= i < n ==> s[i] == 0
  {
    seq(n, _ => 0)
  }

  /** 256 to the power of width. */
  function Span(width: nat): (p: nat)
    ensures p > 0
  {
    if width == 0 then 1 else 256 * Span(width - 1)
  }

  function LittleEndian(n: nat, width: nat): (s: seq<byte>)
    ensures |s| == width
  {
    if width == 0 then [] else [(n % 256) as byte] + LittleEndian(n / 256, width - 1)
  }

  function FromLittleEndian(s: seq<byte>): nat {
    if s == [] then 0 else s[0] as nat + 256 * FromLittleEndian(s[1..])
  }

  lemma {:induction false} LittleEndianRoundTrip(n: nat, width: nat)
    requires n < Span(width)
    ensures FromLittleEndian(LittleEndian(n, width)) == n
  {
    if width > 0 {
      LittleEndianRoundTrip(n / 256, width - 1);
      assert LittleEndian(n, width)[1..] == LittleEndian(n / 256, width - 1);
    }
  }

  /** The i-th byte is the i-th base-256 digit. */
  lemma {:induction false} LittleEndianDigit(n: nat, width: nat, i: nat)
    requires i < width
    ensures LittleEndian(n, width)[i] as nat == n / Span(i) % 256
    decreases width
  {
    if i > 0 {
      LittleEndianDigit(n / 256, width - 1, i - 1);
      QuotientTwice(n, Span(i - 1));
    }
  }

  lemma {:induction false} FromLittleEndianBound(s: seq<byte>)
    ensures FromLittleEndian(s) < Span(|s|)
  {
    if s != [] {
      FromLittleEndianBound(s[1..]);
    }
  }

  lemma SpanValues()
    ensures Span(2) == UINT16_LIMIT && Span(8) == UINT64_LIMIT
  {
    assert Span(2) == 256 * Span(1) == 256 * 256 * Span(0);
    assert Span(4) == 256 * Span(3) == 256 * 256 * Span(2);
    assert Span(6) == 256 * Span(5) == 256 * 256 * Span(4);
    assert Span(8) == 256 * Span(7) == 256 * 256 * Span(6);
  }

  lemma {:induction false} ZeroDecodesToZero(s: seq<byte>)
    requires forall i :: 0 <= i < |s| ==> s[i] == 0
    ensures FromLittleEndian(s) == 0
  {
    if s != [] {
      ZeroDecodesToZero(s[1..]);
    }
  }

  /** The array contents a after data is written at index at. */
  function Spliced(a: seq<byte>, at: nat, data: seq<byte>): (s: seq<byte>)
    requires at + |data| <= |a|
    ensures |s| == |a|
  {
    a[..at] + data + a[at + |data|..]
  }

  /** Two adjacent writes are one. */
  lemma SplicedTwice(a: seq<byte>, at: nat, x: seq<byte>, y: seq<byte>)
    requires at + |x| + |y| <= |a|
    ensures Spliced(Spliced(a, at, x), at + |x|, y) == Spliced(a, at, x + y)
  {
  }
}
