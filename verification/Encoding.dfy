/** bigcache's entry encoding: timestamp (8 bytes), hash (8), key length (2), key, value. */
module Encoding {
  import opened Bytes

  const TIMESTAMP_SIZE: nat := 8
  const HASH_SIZE: nat := 8
  const HEADERS_SIZE: nat := 18

  /** The longest key for which headersSizeInBytes + length does not wrap around in uint16. */
  const MAX_KEY: nat := 65517

  /** The entry wrapEntry builds; the key length is cast to uint16. */
  function Wrapped(timestamp: uint64, hash: uint64, key: seq<byte>, value: seq<byte>): (s: seq<byte>)
    ensures |s| == HEADERS_SIZE + |key| + |value|
  {
    LittleEndian(timestamp, 8) + LittleEndian(hash, 8) + LittleEndian(|key| % UINT16_LIMIT, 2) + key + value
  }

  /** The entry appendToWrappedEntry builds from an existing one. */
  function Appended(timestamp: uint64, wrapped: seq<byte>, value: seq<byte>): seq<byte>
    requires |wrapped| >= TIMESTAMP_SIZE
  {
    LittleEndian(timestamp, 8) + wrapped[TIMESTAMP_SIZE..] + value
  }

  /** An entry whose hash field resetKeyFromEntry has zeroed. */
  function Tombstoned(data: seq<byte>): (s: seq<byte>)
    requires |data| >= TIMESTAMP_SIZE + HASH_SIZE
    ensures |s| == |data|
  {
    data[..8] + Zeros(8) + data[16..]
  }

  function ReadTimestamp(data: seq<byte>): uint64
    requires |data| >= TIMESTAMP_SIZE
  {
    FromLittleEndianBound(data[..8]);
    SpanValues();
    FromLittleEndian(data[..8])
  }

  function ReadHash(data: seq<byte>): uint64
    requires |data| >= TIMESTAMP_SIZE + HASH_SIZE
  {
    FromLittleEndianBound(data[8..16]);
    SpanValues();
    FromLittleEndian(data[8..16])
  }

  function KeyLength(data: seq<byte>): nat
    requires |data| >= HEADERS_SIZE
  {
    FromLittleEndian(data[16..18])
  }

  /** headersSizeInBytes + length, computed in uint16. */
  function KeyEnd(data: seq<byte>): nat
    requires |data| >= HEADERS_SIZE
  {
    (HEADERS_SIZE + KeyLength(data)) % UINT16_LIMIT
  }

  /** The outcome of a read that slices the entry; Panics when a slice bound is out of range. */
  datatype Read = Panics | Got(bytes: seq<byte>)

  function ReadKey(data: seq<byte>): Read
    requires |data| >= HEADERS_SIZE
  {
    if HEADERS_SIZE <= KeyEnd(data) <= |data| then Got(data[HEADERS_SIZE..KeyEnd(data)]) else Panics
  }

  function ReadEntry(data: seq<byte>): Read
    requires |data| >= HEADERS_SIZE
  {
    if KeyEnd(data) <= |data| then Got(data[KeyEnd(data)..]) else Panics
  }

  // ---- The layout ----

  /** Where the fields of an entry are: three little-endian numbers of 8, 8 and 2 bytes, then the key, then the value. */
  lemma EntryLayout(timestamp: uint64, hash: uint64, key: seq<byte>, value: seq<byte>)
    ensures var data := Wrapped(timestamp, hash, key, value);
            && (forall i :: 0 <= i < 8 ==> data[i] as nat == timestamp / Span(i) % 256)
            && (forall i :: 0 <= i < 8 ==> data[8 + i] as nat == hash / Span(i) % 256)
            && data[16] as nat == |key| % 256 && data[17] as nat == |key| / 256 % 256
            && data[18..18 + |key|] == key && data[18 + |key|..] == value
  {
    hide LittleEndian, Span;
    var data := Wrapped(timestamp, hash, key, value);
    forall i | 0 <= i < 8
      ensures data[i] as nat == timestamp / Span(i) % 256 && data[8 + i] as nat == hash / Span(i) % 256
    {
      LittleEndianDigit(timestamp, 8, i);
      LittleEndianDigit(hash, 8, i);
    }
    LengthBytes(|key|);
  }

  lemma LengthBytes(length: nat)
    ensures LittleEndian(length % UINT16_LIMIT, 2) == [(length % 256) as byte, (length / 256 % 256) as byte]
  {
    var n := length % UINT16_LIMIT;
    assert n % 256 == length % 256 && n / 256 == length / 256 % 256;
    assert LittleEndian(n / 256, 1) == [(n / 256 % 256) as byte] + LittleEndian(n / 256 / 256, 0);
  }

  // ---- Round trips ----

  /** Timestamp and hash always read back; key and value exactly when the key has at most 65517 bytes. */
  lemma WrappedReadsBack(timestamp: uint64, hash: uint64, key: seq<byte>, value: seq<byte>)
    ensures var data := Wrapped(timestamp, hash, key, value);
            && ReadTimestamp(data) == timestamp && ReadHash(data) == hash
            && (ReadKey(data) == Got(key) <==> |key| <= MAX_KEY)
            && (ReadEntry(data) == Got(value) <==> |key| <= MAX_KEY)
  {
    hide LittleEndian, FromLittleEndian;
    var data := Wrapped(timestamp, hash, key, value);
    var length := |key| % UINT16_LIMIT;
    SpanValues();
    LittleEndianRoundTrip(timestamp, 8);
    LittleEndianRoundTrip(hash, 8);
    LittleEndianRoundTrip(length, 2);
    assert data[..8] == LittleEndian(timestamp, 8);
    assert data[8..16] == LittleEndian(hash, 8);
    assert data[16..18] == LittleEndian(length, 2);
    assert data[HEADERS_SIZE..HEADERS_SIZE + |key|] == key;
    assert data[HEADERS_SIZE + |key|..] == value;
    if |key| > MAX_KEY {
      assert KeyEnd(data) != HEADERS_SIZE + |key|;
    }
  }

  /** Appending to any entry whose key can be read keeps its hash and key and extends its value. */
  lemma AppendedReadsBack(timestamp: uint64, data: seq<byte>, more: seq<byte>)
    requires |data| >= HEADERS_SIZE && ReadKey(data).Got?
    ensures var a := Appended(timestamp, data, more);
            && |a| >= HEADERS_SIZE && ReadTimestamp(a) == timestamp && ReadHash(a) == ReadHash(data)
            && ReadKey(a) == ReadKey(data)
            && ReadEntry(data).Got? && ReadEntry(a) == Got(ReadEntry(data).bytes + more)
  {
    var a := Appended(timestamp, data, more);
    SpanValues();
    LittleEndianRoundTrip(timestamp, 8);
    assert a[..8] == LittleEndian(timestamp, 8);
    assert a[8..16] == data[8..16] && a[16..18] == data[16..18];
    assert a[HEADERS_SIZE..KeyEnd(data)] == data[HEADERS_SIZE..KeyEnd(data)];
    assert a[KeyEnd(data)..] == data[KeyEnd(data)..] + more;
  }

  /** A tombstone has hash 0 and its other fields as before. */
  lemma TombstonedReadsBack(data: seq<byte>)
    requires |data| >= TIMESTAMP_SIZE + HASH_SIZE
    ensures ReadHash(Tombstoned(data)) == 0 && ReadTimestamp(Tombstoned(data)) == ReadTimestamp(data)
    ensures |data| >= HEADERS_SIZE ==>
              && ReadKey(Tombstoned(data)) == ReadKey(data)
              && (ReadKey(data).Got? ==> ReadEntry(Tombstoned(data)) == ReadEntry(data))
  {
    var t := Tombstoned(data);
    ZeroDecodesToZero(t[8..16]);
    assert t[..8] == data[..8];
    if |data| >= HEADERS_SIZE {
      assert t[16..18] == data[16..18];
      assert t[HEADERS_SIZE..] == data[HEADERS_SIZE..];
      if HEADERS_SIZE <= KeyEnd(data) <= |data| {
        assert t[HEADERS_SIZE..KeyEnd(data)] == data[HEADERS_SIZE..KeyEnd(data)];
        assert t[KeyEnd(data)..] == data[KeyEnd(data)..];
      }
    }
  }

  // ---- In buffers ----

  /** Go's copy(a[at:], data) when the data fit. */
  method CopyAt(a: array<byte>, at: nat, data: seq<byte>)
    requires at + |data| <= a.Length
    modifies a
    ensures a[..] == Spliced(old(a[..]), at, data)
  {
    forall i | 0 <= i < |data| {
      a[at + i] := data[i];
    }
  }

  /** wrapEntry: builds the entry in the buffer, or in a new one that replaces it when it is too small. */
  method WrapEntry(timestamp: uint64, hash: uint64, key: seq<byte>, value: seq<byte>, buffer: array<byte>)
    returns (blob: array<byte>, n: nat)
    modifies buffer
    ensures blob == buffer || fresh(blob)
    ensures n <= blob.Length && blob[..n] == Wrapped(timestamp, hash, key, value)
  {
    hide LittleEndian;
    n := |value| + HEADERS_SIZE + |key|;
    blob := buffer;
    if n > blob.Length {
      blob := new byte[n](_ => 0);
    }
    CopyAt(blob, 0, LittleEndian(timestamp, 8));
    CopyAt(blob, TIMESTAMP_SIZE, LittleEndian(hash, 8));
    assert blob[..16] == LittleEndian(timestamp, 8) + LittleEndian(hash, 8);
    CopyAt(blob, TIMESTAMP_SIZE + HASH_SIZE, LittleEndian(|key| % UINT16_LIMIT, 2));
    ghost var header := LittleEndian(timestamp, 8) + LittleEndian(hash, 8) + LittleEndian(|key| % UINT16_LIMIT, 2);
    assert blob[..HEADERS_SIZE] == header;
    CopyAt(blob, HEADERS_SIZE, key);
    assert blob[..HEADERS_SIZE + |key|] == header + key;
    CopyAt(blob, HEADERS_SIZE + |key|, value);
    assert blob[..n] == header + key + value;
  }

  /** appendToWrappedEntry: the old entry with a new timestamp, then the new bytes. */
  method AppendToWrappedEntry(timestamp: uint64, wrapped: seq<byte>, value: seq<byte>, buffer: array<byte>)
    returns (blob: array<byte>, n: nat)
    requires |wrapped| >= TIMESTAMP_SIZE
    modifies buffer
    ensures blob == buffer || fresh(blob)
    ensures n <= blob.Length && blob[..n] == Appended(timestamp, wrapped, value)
  {
    hide LittleEndian;
    n := |wrapped| + |value|;
    blob := buffer;
    if n > blob.Length {
      blob := new byte[n](_ => 0);
    }
    CopyAt(blob, 0, LittleEndian(timestamp, 8));
    CopyAt(blob, TIMESTAMP_SIZE, wrapped[TIMESTAMP_SIZE..]);
    assert blob[..|wrapped|] == LittleEndian(timestamp, 8) + wrapped[TIMESTAMP_SIZE..];
    CopyAt(blob, |wrapped|, value);
    assert blob[..n] == LittleEndian(timestamp, 8) + wrapped[TIMESTAMP_SIZE..] + value;
  }

  /** resetKeyFromEntry on the entry that starts at start: writes through into the array that holds it. */
  method ResetKey(a: array<byte>, start: nat, ghost data: seq<byte>)
    requires |data| >= TIMESTAMP_SIZE + HASH_SIZE
    requires start + |data| <= a.Length && a[start..start + |data|] == data
    modifies a
    ensures a[..] == Spliced(old(a[..]), start, Tombstoned(data))
  {
    CopyAt(a, start + TIMESTAMP_SIZE, Zeros(8));
    assert forall i :: 0 <= i < |data| ==> old(a[..])[start + i] == data[i];
    assert forall i :: 0 <= i < a.Length ==> a[..][i] == Spliced(old(a[..]), start, Tombstoned(data))[i];
  }
}
