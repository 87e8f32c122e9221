/**
  Base-128 varints as Go's binary.PutUvarint and binary.Uvarint read and write
  them (Protocol Buffers Encoding, section "Base 128 Varints"), and the
  queue's own size table getUvarintSize.
 */
module Varint {
  import opened Bytes

  /** The bytes binary.PutUvarint writes: seven bits a byte, least significant first. */
  function PutUvarint(n: nat): (s: seq<byte>)
    ensures |s| >= 1
  {
    if n < 128 then [n as byte] else [(n % 128 + 128) as byte] + PutUvarint(n / 128)
  }

  /** What binary.Uvarint returns: n > 0 bytes read, n == 0 when the input ends early, n < 0 on overflow. */
  datatype Decoded = Decoded(value: nat, n: int)

  function Uvarint(s: seq<byte>): Decoded {
    UvarintAt(s, 0)
  }

  function UvarintAt(s: seq<byte>, i: nat): Decoded
    requires i <= |s|
    decreases |s| - i
  {
    if i == |s| then
      Decoded(0, 0)
    else if s[i] < 128 then
      if i > 9 || (i == 9 && s[i] > 1) then Decoded(0, -(i + 1)) else Decoded(s[i] as nat, i + 1)
    else
      var rest := UvarintAt(s, i + 1);
      if rest.n <= 0 then rest else Decoded((s[i] - 128) as nat + 128 * rest.value, rest.n)
  }

  /** getUvarintSize: the argument is a uint32. */
  function UvarintSize(x: nat): (n: nat)
    requires x < UINT32_LIMIT
    ensures 1 <= n <= 5
  {
    if x < 128 then 1
    else if x < 16384 then 2
    else if x < 2097152 then 3
    else if x < 268435456 then 4
    else 5
  }

  /** The size table agrees with the encoder on every uint32. */
  lemma UvarintSizeExact(x: nat)
    requires x < UINT32_LIMIT
    ensures |PutUvarint(x)| == UvarintSize(x)
  {
    var x1 := x / 128;
    var x2 := x1 / 128;
    var x3 := x2 / 128;
    var x4 := x3 / 128;
    assert x1 < 33554432 && x2 < 262144 && x3 < 2048 && x4 < 16;
    assert |PutUvarint(x4)| == 1;
    assert |PutUvarint(x3)| == if x3 < 128 then 1 else 2;
    assert |PutUvarint(x2)| == if x2 < 128 then 1 else 1 + |PutUvarint(x3)|;
    assert |PutUvarint(x1)| == if x1 < 128 then 1 else 1 + |PutUvarint(x2)|;
  }

  /** Decoding a buffer that starts with an encoded number returns that number and its length, whatever follows. */
  lemma UvarintRoundTrip(x: nat, rest: seq<byte>)
    requires x < UINT32_LIMIT
    ensures Uvarint(PutUvarint(x) + rest) == Decoded(x, |PutUvarint(x)|)
  {
    UvarintSizeExact(x);
    RoundTripAt([], x, rest);
    assert [] + PutUvarint(x) + rest == PutUvarint(x) + rest;
  }

  lemma {:induction false} RoundTripAt(before: seq<byte>, x: nat, rest: seq<byte>)
    requires |before| + |PutUvarint(x)| <= 9
    ensures UvarintAt(before + PutUvarint(x) + rest, |before|) == Decoded(x, |before| + |PutUvarint(x)|)
    decreases x
  {
    var s := before + PutUvarint(x) + rest;
    if x >= 128 {
      var first := [(x % 128 + 128) as byte];
      assert s == (before + first) + PutUvarint(x / 128) + rest;
      RoundTripAt(before + first, x / 128, rest);
      assert s[|before|] == first[0];
    } else {
      assert s[|before|] == x as byte;
    }
  }

  /** The number whose base-128 digits, least significant first, are the low seven bits of the bytes. */
  function Digits(s: seq<byte>): nat {
    if s == [] then 0 else s[0] as nat % 128 + 128 * Digits(s[1..])
  }

  /** The format itself: seven bits a byte, least significant group first, the high bit set on all bytes but the last. */
  lemma {:induction false} UvarintFormat(x: nat)
    ensures var s := PutUvarint(x);
            && Digits(s) == x && s[|s| - 1] < 128
            && (forall i :: 0 <= i < |s| - 1 ==> s[i] >= 128)
            && (|s| > 1 ==> s[|s| - 1] > 0)
    decreases x
  {
    var s := PutUvarint(x);
    if x >= 128 {
      UvarintFormat(x / 128);
      assert s[1..] == PutUvarint(x / 128);
    } else {
      assert s[1..] == [];
    }
  }
}
