/** The header each pair carries on media (nvm_kv_header_t, packed, little-endian) and the
    key that follows it in the first sector. */
module Record {
  import opened Bits
  import opened HashFunc

  type Word32 = x: nat | x < 0x1_0000_0000

  const HEADER_SIZE := 40
  const METADATA_LEN := 16

  datatype Header = Header(metadataLen: Word32, keyLen: Word32, valueLen: Word32, valueOffset: Word32,
                           poolId: Word32, genCount: Word32, expiry: Word32)

  /** The header's bytes; the store never sets the reserved word, so it keeps what the buffer held. */
  function EncodeHeader(h: Header, reserved: seq<Byte>): (s: seq<Byte>)
    requires |reserved| == 4
    ensures |s| == HEADER_SIZE
  {
    Le32(h.metadataLen) + Le32(h.keyLen) + Le32(h.valueLen) + Le32(h.valueOffset) + Le32(h.poolId)
    + reserved + [0, 0, 0, 0, 0, 0, 0, 0] + Le32(h.genCount) + Le32(h.expiry)
  }

  function WordOf(a: int, b: int, c: int, d: int): int {
    a + 0x100 * b + 0x1_0000 * c + 0x100_0000 * d
  }

  function Read32(s: seq<Byte>, at: nat): Word32
    requires at + 4 <= |s|
  {
    WordOf(s[at], s[at + 1], s[at + 2], s[at + 3])
  }

  function DecodeHeader(s: seq<Byte>): Header
    requires |s| >= HEADER_SIZE
  {
    Header(Read32(s, 0), Read32(s, 4), Read32(s, 8), Read32(s, 12), Read32(s, 16), Read32(s, 32), Read32(s, 36))
  }

  lemma WordOfItsBytes(x: Word32)
    ensures WordOf(x % 256, (x / 0x100) % 256, (x / 0x1_0000) % 256, (x / 0x100_0000) % 256) == x
  {
    var y := x / 0x100;
    var z := y / 0x100;
    assert x / 0x1_0000 == z;
    assert x / 0x100_0000 == z / 0x100;
  }

  /** Any sector that starts with a header's bytes decodes to that header. */
  lemma HeaderRoundTrip(h: Header, reserved: seq<Byte>, rest: seq<Byte>)
    requires |reserved| == 4
    ensures DecodeHeader(EncodeHeader(h, reserved) + rest) == h
  {
    var s := EncodeHeader(h, reserved) + rest;
    WordAt(s, 0, h.metadataLen);
    WordAt(s, 4, h.keyLen);
    WordAt(s, 8, h.valueLen);
    WordAt(s, 12, h.valueOffset);
    WordAt(s, 16, h.poolId);
    WordAt(s, 32, h.genCount);
    WordAt(s, 36, h.expiry);
  }

  lemma WordAt(s: seq<Byte>, at: nat, x: Word32)
    requires at + 4 <= |s| && s[at..at + 4] == Le32(x)
    ensures Read32(s, at) == x
  {
    WordOfItsBytes(x);
    assert s[at] == s[at..at + 4][0] && s[at + 1] == s[at..at + 4][1];
    assert s[at + 2] == s[at..at + 4][2] && s[at + 3] == s[at..at + 4][3];
  }

  /** The comparison every lookup makes: key length, key bytes, pool. */
  predicate HoldsKey(sector: seq<Byte>, key: seq<Byte>, pool: nat)
    requires |sector| >= HEADER_SIZE
  {
    var h := DecodeHeader(sector);
    h.keyLen == |key| && HEADER_SIZE + |key| <= |sector|
    && sector[HEADER_SIZE..HEADER_SIZE + |key|] == key && h.poolId == pool
  }

  /** A buffer with header and key written over its first bytes. */
  function Stamped(h: Header, key: seq<Byte>, buf: seq<Byte>): (s: seq<Byte>)
    requires HEADER_SIZE + |key| <= |buf|
    ensures |s| == |buf|
  {
    EncodeHeader(h, buf[20..24]) + key + buf[HEADER_SIZE + |key|..]
  }

  /** A stamped sector is found under its own key and pool, and under no other. */
  lemma StampedHolds(h: Header, key: seq<Byte>, buf: seq<Byte>, otherKey: seq<Byte>, otherPool: nat)
    requires HEADER_SIZE + |key| <= |buf| && h.keyLen == |key|
    ensures DecodeHeader(Stamped(h, key, buf)) == h
    ensures HoldsKey(Stamped(h, key, buf), otherKey, otherPool) <==> otherKey == key && otherPool == h.poolId
  {
    var rest := key + buf[HEADER_SIZE + |key|..];
    assert Stamped(h, key, buf) == EncodeHeader(h, buf[20..24]) + rest;
    HeaderRoundTrip(h, buf[20..24], rest);
    assert Stamped(h, key, buf)[HEADER_SIZE..HEADER_SIZE + |key|] == key;
  }

  /** Four bytes from `at` on are a little-endian word. */
  predicate WordIs(s: seq<Byte>, at: nat, x: nat) {
    at + 4 <= |s|
    && var a: nat, b: nat, c: nat, d: nat := s[at], s[at + 1], s[at + 2], s[at + 3];
       a + 0x100 * b + 0x1_0000 * c + 0x100_0000 * d == x
  }

  /** Where each field of a stamped sector lies on the media: the words of the packed header, the
      reserved word as it was, a number of keys of 0, then the key and what was in the buffer. */
  lemma StampedBytes(h: Header, key: seq<Byte>, buf: seq<Byte>)
    requires 40 + |key| <= |buf|
    ensures var s := Stamped(h, key, buf);
            && WordIs(s, 0, h.metadataLen) && WordIs(s, 4, h.keyLen) && WordIs(s, 8, h.valueLen)
            && WordIs(s, 12, h.valueOffset) && WordIs(s, 16, h.poolId) && s[20..24] == buf[20..24]
            && (forall i :: 24 <= i < 32 ==> s[i] == 0)
            && WordIs(s, 32, h.genCount) && WordIs(s, 36, h.expiry)
            && s[40..40 + |key|] == key && s[40 + |key|..] == buf[40 + |key|..]
  {
    var s := Stamped(h, key, buf);
    WordAt(s, 0, h.metadataLen);
    WordAt(s, 4, h.keyLen);
    WordAt(s, 8, h.valueLen);
    WordAt(s, 12, h.valueOffset);
    WordAt(s, 16, h.poolId);
    WordAt(s, 32, h.genCount);
    WordAt(s, 36, h.expiry);
  }
}
