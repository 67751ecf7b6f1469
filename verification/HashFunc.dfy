/** Placement hashing (util/kv_hash_func.cpp): FNV-1a of key and pool, the xor-fold to the
    key bits, the shift into the address space and the sequential probe. */
module HashFunc {
  import opened Bits

  const FNV_BASIS := 14695981039346656037
  const FNV_PRIME := 1099511628211
  const TINY_HASH_LEN := 32
  const MAX_COLLISION := 8

  /** What initialize sets once: width of the address space and first free record. */
  datatype Config = Config(alignBits: nat, sliceAddr: nat)

  function FnvStep(h: nat, b: Byte): nat {
    Wrap64(BitXor(h, b) * FNV_PRIME)
  }

  /** FNV-1a over a byte string, continuing from state h. */
  function FnvBytes(h: nat, s: seq<Byte>): nat
    decreases |s|
  {
    if s == [] then h else FnvBytes(FnvStep(h, s[0]), s[1..])
  }

  /** The four bytes of a 32-bit pool id in memory order. */
  function Le32(x: nat): (s: seq<Byte>)
    ensures |s| == 4
  {
    [x % 256, (x / 0x100) % 256, (x / 0x1_0000) % 256, (x / 0x100_0000) % 256]
  }

  function Fnv1aOf(cfg: Config, key: seq<Byte>, pool: nat): nat {
    var h := FnvBytes(FNV_BASIS, key);
    var h' := if pool != 0 then FnvBytes(h, Le32(pool)) else h;
    if h' < cfg.sliceAddr then Wrap64(h' + cfg.sliceAddr) else h'
  }

  method Fnv1a(cfg: Config, key: seq<Byte>, pool: nat) returns (h: nat)
    ensures h == Fnv1aOf(cfg, key, pool)
  {
    h := FNV_BASIS;
    var i := 0;
    while i < |key|
      invariant 0 <= i <= |key|
      invariant FnvBytes(h, key[i..]) == FnvBytes(FNV_BASIS, key)
    {
      h := FnvStep(h, key[i]);
      i := i + 1;
    }
    if pool != 0 {
      var bytes := Le32(pool);
      ghost var start := h;
      i := 0;
      while i < 4
        invariant 0 <= i <= 4
        invariant FnvBytes(h, bytes[i..]) == FnvBytes(start, bytes)
      {
        h := FnvStep(h, bytes[i]);
        i := i + 1;
      }
    }
    if h < cfg.sliceAddr {
      h := Wrap64(h + cfg.sliceAddr);
    }
  }

  lemma {:induction false} FnvFitsWord(h: nat, s: seq<Byte>)
    requires h < WORD64
    ensures FnvBytes(h, s) < WORD64
    decreases |s|
  {
    if s != [] {
      FnvFitsWord(FnvStep(h, s[0]), s[1..]);
    }
  }

  /** Multiplying by the FNV prime loses nothing modulo 2^64: the prime has an inverse there. */
  const FNV_INVERSE := 14886173955864302971

  lemma PrimeIsInvertible(x: nat, y: nat)
    requires x < WORD64 && y < WORD64 && Wrap64(x * FNV_PRIME) == Wrap64(y * FNV_PRIME)
    ensures x == y
  {
    var p, q := x * FNV_PRIME / WORD64, y * FNV_PRIME / WORD64;
    assert (x - y) * FNV_PRIME == (p - q) * WORD64;
    var times := FNV_PRIME * FNV_INVERSE / WORD64;
    assert FNV_PRIME * FNV_INVERSE == times * WORD64 + 1;
    assert x - y == ((p - q) * FNV_INVERSE - (x - y) * times) * WORD64;
  }

  lemma XorHalves(x: nat, y: nat, hx: nat, lx: nat, hy: nat, ly: nat)
    requires x == 2 * hx + lx && y == 2 * hy + ly && lx < 2 && ly < 2
    ensures BitXor(x, y) == 2 * BitXor(hx, hy) + (lx + ly) % 2
  {
    assert x / 2 == hx && y / 2 == hy && (x + y) % 2 == (lx + ly) % 2;
  }

  lemma {:induction false} XorUndoes(a: nat, b: nat)
    ensures BitXor(BitXor(a, b), b) == a
    decreases b
  {
    if b == 0 {
      assert BitXor(a, 0) == a;
    } else {
      var ha, la, hb, lb := a / 2, a % 2, b / 2, b % 2;
      var hx, lx := BitXor(ha, hb), (la + lb) % 2;
      XorUndoes(ha, hb);
      XorHalves(a, b, ha, la, hb, lb);
      XorHalves(2 * hx + lx, b, hx, lx, hb, lb);
    }
  }

  lemma XorSplitStep(hx: nat, hy: nat, high: nat, lx: nat, ly: nat)
    requires BitXor(hx + lx / 2, hy + ly / 2) == high + BitXor(lx / 2, ly / 2)
    ensures BitXor(2 * hx + lx, 2 * hy + ly) == 2 * high + BitXor(lx, ly)
  {
    var ha, la, hb, lb := lx / 2, lx % 2, ly / 2, ly % 2;
    XorHalves(lx, ly, ha, la, hb, lb);
    XorHalves(2 * hx + lx, 2 * hy + ly, hx + ha, la, hy + hb, lb);
  }

  /** The low n bits and those above are xor-ed apart from each other. */
  lemma {:induction false} XorSplit(hx: nat, lx: nat, hy: nat, ly: nat, n: nat)
    requires lx < Pow2(n) && ly < Pow2(n)
    ensures BitXor(Shl(hx, n) + lx, Shl(hy, n) + ly) == Shl(BitXor(hx, hy), n) + BitXor(lx, ly)
  {
    if n > 0 {
      ShlStep(hx, n);
      ShlStep(hy, n);
      ShlStep(BitXor(hx, hy), n);
      XorSplit(hx, lx / 2, hy, ly / 2, n - 1);
      XorSplitStep(Shl(hx, n - 1), Shl(hy, n - 1), Shl(BitXor(hx, hy), n - 1), lx, ly);
    }
  }

  /** One more hexadecimal digit of an exclusive or. */
  lemma XorDigit(hx: nat, lx: nat, hy: nat, ly: nat, high: nat, low: nat)
    requires lx < 16 && ly < 16 && BitXor(hx, hy) == high && BitXor(lx, ly) == low
    ensures BitXor(16 * hx + lx, 16 * hy + ly) == 16 * high + low
  {
    assert Pow2(4) == 16;
    XorSplit(hx, lx, hy, ly, 4);
  }

  /** The hash of the byte with digits h and l; x and y are what its first step makes of the
      lowest two digits of the basis, q what the product leaves above the word. */
  lemma FnvOfByte(b: Byte, h: nat, l: nat, x: nat, y: nat, q: nat, r: nat)
    requires b == 16 * h + l && l < 16 && BitXor(0x2, h) == x && BitXor(0x5, l) == y
    requires (0xcbf2_9ce4_8422_2300 + 16 * x + y) * FNV_PRIME == q * WORD64 + r && r < WORD64
    ensures FnvBytes(FNV_BASIS, [b]) == r
  {
    DivModUnique((0xcbf2_9ce4_8422_2300 + 16 * x + y) * FNV_PRIME, WORD64, q, r);
    XorDigit(0x2, 0x5, h, l, x, y);
    assert Pow2(8) == 256;
    XorSplit(0xcb_f29c_e484_2223, 0x25, 0, b, 8);
    HashOfByte(FNV_BASIS, b, 0xcbf2_9ce4_8422_2300 + 16 * x + y);
  }

  lemma DigitsOfA()
    ensures BitXor(0x2, 0x6) == 0x4 && BitXor(0x5, 0x1) == 0x4
  {
  }

  /** A published value: the hash of "a" (draft-eastlake-fnv, appendix C). */
  lemma FnvOfA(a: Byte)
    requires a == 0x61
    ensures FnvBytes(FNV_BASIS, [a]) == 0xaf63_dc4c_8601_ec8c
  {
    DigitsOfA();
    FnvOfByte(a, 0x6, 0x1, 0x4, 0x4, 0xcb_f29c_e5de, 0xaf63_dc4c_8601_ec8c);
  }

  lemma DigitsOfUpper()
    ensures BitXor(0x2, 0x4) == 0x6 && BitXor(0x5, 0x1) == 0x4 && BitXor(0x2, 0x5) == 0x7 && BitXor(0x5, 0x4) == 0x1
  {
  }

  /** The hashes of "A" and "T". */
  lemma FnvOfUpperA(a: Byte)
    requires a == 0x41
    ensures FnvBytes(FNV_BASIS, [a]) == 0xaf63_fc4c_8602_22ec
  {
    DigitsOfUpper();
    FnvOfByte(a, 0x4, 0x1, 0x6, 0x4, 0xcb_f29c_e5de, 0xaf63_fc4c_8602_22ec);
  }

  lemma FnvOfUpperT(t: Byte)
    requires t == 0x54
    ensures FnvBytes(FNV_BASIS, [t]) == 0xaf64_094c_8602_3903
  {
    DigitsOfUpper();
    FnvOfByte(t, 0x5, 0x4, 0x7, 0x1, 0xcb_f29c_e5de, 0xaf64_094c_8602_3903);
  }

  /** One step on a word split before its lowest digit; q is what the product leaves above it. */
  lemma FnvStepIs(high: nat, low: nat, b: Byte, x: nat, q: nat, r: nat)
    requires low < 16 && b < 16 && BitXor(low, b) == x
    requires (16 * high + x) * FNV_PRIME == q * WORD64 + r && r < WORD64
    ensures FnvStep(16 * high + low, b) == r
  {
    XorDigit(high, low, 0, b, high, x);
    DivModUnique((16 * high + x) * FNV_PRIME, WORD64, q, r);
  }

  /** A hash is continued by hashing more bytes from where it stands. */
  lemma {:induction false} FnvContinues(h: nat, s: seq<Byte>, t: seq<Byte>)
    ensures FnvBytes(h, s + t) == FnvBytes(FnvBytes(h, s), t)
    decreases |s|
  {
    if s == [] {
      assert s + t == t;
    } else {
      assert (s + t)[1..] == s[1..] + t;
      FnvContinues(FnvStep(h, s[0]), s[1..], t);
    }
  }

  lemma BytesOf(x: nat, b0: Byte, b1: Byte, b2: Byte, b3: Byte)
    requires x == b0 + 0x100 * b1 + 0x1_0000 * b2 + 0x100_0000 * b3
    ensures Le32(x) == [b0, b1, b2, b3]
  {
    DivModUnique(x, 0x100, b1 + 0x100 * b2 + 0x1_0000 * b3, b0);
    DivModUnique(x, 0x1_0000, b2 + 0x100 * b3, b0 + 0x100 * b1);
    DivModUnique(x, 0x100_0000, b3, b0 + 0x100 * b1 + 0x1_0000 * b2);
    DivModUnique(b1 + 0x100 * b2 + 0x1_0000 * b3, 0x100, b2 + 0x100 * b3, b1);
    DivModUnique(b2 + 0x100 * b3, 0x100, b3, b2);
  }

  /** A key in a pool hashes as the key followed by the four bytes of the pool id, low byte
      first, hashes in the default pool; the default pool's own id is not hashed. */
  lemma PoolIsSuffix(cfg: Config, key: seq<Byte>, pool: nat, b0: Byte, b1: Byte, b2: Byte, b3: Byte)
    requires pool == b0 + 0x100 * b1 + 0x1_0000 * b2 + 0x100_0000 * b3
    ensures pool != 0 ==> Fnv1aOf(cfg, key, pool) == Fnv1aOf(cfg, key + [b0, b1, b2, b3], 0)
    ensures pool == 0 && cfg.sliceAddr == 0 ==> Fnv1aOf(cfg, key, pool) == FnvBytes(FNV_BASIS, key)
  {
    BytesOf(pool, b0, b1, b2, b3);
    FnvContinues(FNV_BASIS, key, [b0, b1, b2, b3]);
  }

  /** The records are stepped over exactly by the hashes that fall on them: each such hash, and
      no other, moves up by their length, wrapping past the end of the word. */
  lemma RecordsAreSteppedOver(cfg: Config, key: seq<Byte>, pool: nat)
    requires cfg.sliceAddr < WORD64
    ensures var unmoved, h := Fnv1aOf(cfg.(sliceAddr := 0), key, pool), Fnv1aOf(cfg, key, pool);
            (h != unmoved <==> unmoved < cfg.sliceAddr)
            && (h != unmoved ==> h == unmoved + cfg.sliceAddr || h + WORD64 == unmoved + cfg.sliceAddr)
            && h < WORD64
            && (2 * cfg.sliceAddr <= WORD64 ==> cfg.sliceAddr <= h)
  {
    FnvFitsWord(FNV_BASIS, key);
    FnvFitsWord(FnvBytes(FNV_BASIS, key), Le32(pool));
    var unmoved := Fnv1aOf(cfg.(sliceAddr := 0), key, pool);
    if unmoved < cfg.sliceAddr && unmoved + cfg.sliceAddr >= WORD64 {
      DivModUnique(unmoved + cfg.sliceAddr, WORD64, 1, unmoved + cfg.sliceAddr - WORD64);
    }
  }

  /** A value for a pool other than 0: the hash of "a" in pool 1, and in pool 0 beside it. */
  lemma FnvOfAInPoolOne(cfg: Config, a: Byte)
    requires a == 0x61 && cfg.sliceAddr == 0
    ensures Fnv1aOf(cfg, [a], 1) == 0x0de4_7e06_a7ff_87dd
    ensures Fnv1aOf(cfg, [a], 0) == 0xaf63_dc4c_8601_ec8c
  {
    FnvOfA(a);
    PoolIsSuffix(cfg, [a], 1, 1, 0, 0, 0);
    PoolIsSuffix(cfg, [a] + [1, 0, 0, 0], 0, 0, 0, 0, 0);
    FnvContinues(FNV_BASIS, [a], [1, 0, 0, 0]);
    SuffixOfOne(0xaf63_dc4c_8601_ec8c);
  }

  lemma SuffixOfOne(h: nat)
    requires h == 0xaf63_dc4c_8601_ec8c
    ensures FnvBytes(h, [1, 0, 0, 0]) == 0x0de4_7e06_a7ff_87dd
  {
    DigitsOfOne();
    FnvStepIs(0xaf6_3dc4_c860_1ec8, 0xc, 1, 0xd, 0xaf_63dc_4db0, 0x089b_e307_b544_f397);
    FnvOfZeros(0x089b_e307_b544_f397, 0xe5d6_5d19_0429_e995, 0xb529_c682_1337_e82f,
               0x08_9be3_07c3, 0xe5_d65d_1a8a, 0xb5_29c6_8347, 0x0de4_7e06_a7ff_87dd);
    assert [1, 0, 0, 0][1..] == [0, 0, 0];
  }

  /** Three zero bytes multiply by the prime; the hashes between and what each product leaves
      above the word are given. */
  lemma FnvOfZeros(h: nat, h1: nat, h2: nat, q0: nat, q1: nat, q2: nat, r: nat)
    requires h * FNV_PRIME == q0 * WORD64 + h1 && h1 < WORD64
    requires h1 * FNV_PRIME == q1 * WORD64 + h2 && h2 < WORD64
    requires h2 * FNV_PRIME == q2 * WORD64 + r && r < WORD64
    ensures FnvBytes(h, [0, 0, 0]) == r
  {
    DivModUnique(h * FNV_PRIME, WORD64, q0, h1);
    DivModUnique(h1 * FNV_PRIME, WORD64, q1, h2);
    DivModUnique(h2 * FNV_PRIME, WORD64, q2, r);
    assert [0, 0, 0][1..] == [0, 0] && [0, 0][1..] == [0] && [0][1..] == [];
    HashOfByte(h2, 0, h2);
    assert FnvBytes(h1, [0, 0]) == FnvBytes(FnvStep(h1, 0), [0]);
  }

  lemma DigitsOfOne()
    ensures BitXor(0xc, 0x1) == 0xd
  {
  }

  lemma HashOfByte(h: nat, b: Byte, x: nat)
    requires BitXor(h, b) == x
    ensures FnvBytes(h, [b]) == Wrap64(x * FNV_PRIME)
  {
    assert [b][1..] == [];
  }

  /** Appending the same bytes, such as a pool id, never makes two different hashes equal: keys
      that do not collide by themselves do not collide within a pool either. */
  lemma {:induction false} SuffixKeepsDistinct(h: nat, g: nat, s: seq<Byte>)
    requires h < WORD64 && g < WORD64 && FnvBytes(h, s) == FnvBytes(g, s)
    ensures h == g
    decreases |s|
  {
    if s != [] {
      SuffixKeepsDistinct(FnvStep(h, s[0]), FnvStep(g, s[0]), s[1..]);
      ByteXorFits(h, s[0]);
      ByteXorFits(g, s[0]);
      PrimeIsInvertible(BitXor(h, s[0]), BitXor(g, s[0]));
      XorUndoes(h, s[0]);
      XorUndoes(g, s[0]);
    }
  }

  lemma ByteXorFits(h: nat, b: Byte)
    requires h < WORD64
    ensures BitXor(h, b) < WORD64
  {
    Pow2Of64();
    XorStaysInWord(h, b, 64);
  }

  /** Xor-fold of a 64-bit hash to len bits; the two branches are the source's. */
  function Fold(h: nat, len: nat): nat {
    if len > TINY_HASH_LEN then
      BitXor(Shr(h, len), BitAnd(h, Pow2(len) - 1))
    else
      BitAnd(BitXor(Shr(h, len), h), Pow2(len) - 1)
  }

  /** The fold fits its width on both sides of the 32-bit case. */
  lemma FoldFits(h: nat, len: nat)
    requires h < WORD64
    ensures Fold(h, len) < Pow2(len)
  {
    if len > TINY_HASH_LEN {
      Pow2Of64();
      ShrFits(h, len, 64);
      LowBitsFit(h, len);
      XorStaysInWord(Shr(h, len), BitAnd(h, Pow2(len) - 1), len);
    } else {
      LowBitsFit(BitXor(Shr(h, len), h), len);
    }
  }

  lemma FieldsApart(upper: nat, low: nat, len: nat)
    requires low < Pow2(len)
    ensures Shr(Shl(upper, len) + low, len) == upper && (Shl(upper, len) + low) % Pow2(len) == low
  {
    DivModUnique(Shl(upper, len) + low, Pow2(len), upper, low);
  }

  /** A fold to at most 32 bits is the low field of the exclusive or. */
  lemma FoldIsLow(h: nat, upper: nat, high: nat, low: nat, len: nat)
    requires len <= TINY_HASH_LEN && low < Pow2(len)
    requires Shr(h, len) == upper && BitXor(upper, h) == Shl(high, len) + low
    ensures Fold(h, len) == low
  {
    AndLowMask(BitXor(upper, h), len);
    FieldsApart(high, low, len);
  }

  /** The fold is the exclusive or of the field above the low len bits with those bits, cut to
      len bits; for widths over 32 of the 64 bits the cut takes nothing away. */
  lemma FoldXorsFields(h: nat, upper: nat, low: nat, len: nat)
    requires h == Shl(upper, len) + low < WORD64 && low < Pow2(len)
    ensures Fold(h, len) == BitXor(upper, low) % Pow2(len)
    ensures len > TINY_HASH_LEN ==> Fold(h, len) == BitXor(upper, low)
  {
    if len > TINY_HASH_LEN {
      WideFoldXorsFields(h, upper, low, len);
      FoldFits(h, len);
      ModOfSmall(BitXor(upper, low), Pow2(len));
    } else {
      NarrowFoldXorsFields(h, upper, low, len);
    }
  }

  lemma ModOfSmall(x: nat, d: nat)
    requires x < d
    ensures x % d == x
  {
  }

  lemma WideFoldXorsFields(h: nat, upper: nat, low: nat, len: nat)
    requires len > TINY_HASH_LEN && h == Shl(upper, len) + low && low < Pow2(len)
    ensures Fold(h, len) == BitXor(upper, low)
  {
    FieldsApart(upper, low, len);
    AndLowMask(h, len);
  }

  lemma NarrowFoldXorsFields(h: nat, upper: nat, low: nat, len: nat)
    requires len <= TINY_HASH_LEN && h == Shl(upper, len) + low && low < Pow2(len)
    ensures Fold(h, len) == BitXor(upper, low) % Pow2(len)
  {
    var above, within := Shr(upper, len), upper % Pow2(len);
    FieldsApart(upper, low, len);
    FieldBelow(upper, len);
    XorOfLowFields(above, within, upper, low, len);
    FoldIsLow(h, upper, BitXor(above, upper), BitXor(within, low), len);
  }

  lemma FieldBelow(x: nat, len: nat)
    ensures x == Shl(Shr(x, len), len) + x % Pow2(len) && x % Pow2(len) < Pow2(len)
  {
    Recompose(x, Pow2(len));
  }

  /** Below len bits only the low fields are seen. */
  lemma XorOfLowFields(above: nat, within: nat, upper: nat, low: nat, len: nat)
    requires within < Pow2(len) && low < Pow2(len)
    ensures BitXor(within, low) < Pow2(len)
    ensures BitXor(Shl(above, len) + within, Shl(upper, len) + low)
            == Shl(BitXor(above, upper), len) + BitXor(within, low)
    ensures BitXor(Shl(above, len) + within, low) % Pow2(len) == BitXor(within, low)
  {
    XorStaysInWord(within, low, len);
    XorSplit(above, within, upper, low, len);
    XorSplit(above, within, 0, low, len);
    FieldsApart(BitXor(above, 0), BitXor(within, low), len);
  }

  lemma LowBitsFit(x: nat, len: nat)
    ensures BitAnd(x, Pow2(len) - 1) < Pow2(len)
  {
    AndLowMask(x, len);
  }

  /** What remains of a word shifted by more than half its width fits the shift. */
  lemma ShrFits(h: nat, len: nat, word: nat)
    requires h < WORD64 == Pow2(word) && 2 * len >= word
    ensures Shr(h, len) < Pow2(len)
  {
    Pow2Add(len, len);
    Pow2Monotone(word, 2 * len);
    QuotientBelow(h, Pow2(len), Pow2(len));
  }

  predicate ValidLength(cfg: Config, len: nat, align: bool) {
    len < 64 && (align ==> len <= cfg.alignBits < 64)
  }

  function KeyHashOf(cfg: Config, key: seq<Byte>, pool: nat, len: nat, align: bool): nat
    requires ValidLength(cfg, len, align)
  {
    if key == [] || len == 0 then 0
    else
      var hash := Fold(Fnv1aOf(cfg, key, pool), len);
      if align then Wrap64(Shl(hash, cfg.alignBits - len)) else hash
  }

  method KeyHash(cfg: Config, key: seq<Byte>, pool: nat, len: nat, align: bool) returns (hash: nat)
    requires ValidLength(cfg, len, align)
    ensures hash == KeyHashOf(cfg, key, pool, len, align)
  {
    if key == [] || len == 0 {
      return 0;
    }
    var h := Fnv1a(cfg, key, pool);
    hash := Fold(h, len);
    if align {
      hash := Wrap64(Shl(hash, cfg.alignBits - len));
    }
  }

  function SequentialProbe(cfg: Config, prev: nat, ntimes: nat, alignLeft: nat): nat
    requires alignLeft <= cfg.alignBits
  {
    Wrap64(prev + Wrap64(Shl(ntimes, alignLeft))) % Pow2(cfg.alignBits - alignLeft)
  }

  function ResolveColl(cfg: Config, key: seq<Byte>, prev: nat, ntimes: nat, len: nat, align: bool): nat
    requires ValidLength(cfg, len, align)
  {
    if key == [] || len == 0 then 0
    else SequentialProbe(cfg, prev, ntimes, if align then cfg.alignBits - len else 0)
  }

  // ---- The probe sequence of a key ---------------------------------------------------

  /** A layout as the hash sees it: keyBits above valueBits, together the sparse address. */
  predicate Splits(cfg: Config, keyBits: nat, valueBits: nat) {
    keyBits > 0 && cfg.alignBits == keyBits + valueBits <= 60
  }

  /** Slot address of probe i: the hash itself first, then its i-th collision address. */
  function ProbeSlot(cfg: Config, keyBits: nat, key: seq<Byte>, pool: nat, i: nat): nat
    requires ValidLength(cfg, keyBits, true)
  {
    var first := KeyHashOf(cfg, key, pool, keyBits, true);
    if i == 0 then first else ResolveColl(cfg, key, first, i, keyBits, true)
  }

  /** The folded hash that a key's first slot is the multiple of. */
  function Folded(cfg: Config, keyBits: nat, key: seq<Byte>, pool: nat): nat {
    Fold(Fnv1aOf(cfg, key, pool), keyBits)
  }

  lemma FoldedFits(cfg: Config, keyBits: nat, key: seq<Byte>, pool: nat)
    requires cfg.sliceAddr < WORD64
    ensures Folded(cfg, keyBits, key, pool) < Pow2(keyBits)
  {
    FnvFitsWord(FNV_BASIS, key);
    FnvFitsWord(FnvBytes(FNV_BASIS, key), Le32(pool));
    FoldFits(Fnv1aOf(cfg, key, pool), keyBits);
  }

  /** Which slot probe i takes, for folded hash f. The first is the folded hash; the others
      advance slot by slot but wrap at address 2^keyBits, not at the end of the device. */
  function SlotNumber(f: nat, i: nat, keyBits: nat, valueBits: nat): nat {
    if i == 0 then f
    else if keyBits >= valueBits then (f + i) % Pow2(keyBits - valueBits)
    else 0
  }

  lemma SlotNumberFits(f: nat, i: nat, keyBits: nat, valueBits: nat)
    requires f < Pow2(keyBits)
    ensures SlotNumber(f, i, keyBits, valueBits) < Pow2(keyBits)
  {
    if keyBits >= valueBits {
      Pow2Monotone(keyBits - valueBits, keyBits);
    }
  }

  /** The probes in closed form. */
  lemma ProbeSlotIs(cfg: Config, keyBits: nat, valueBits: nat, key: seq<Byte>, pool: nat, i: nat)
    requires Splits(cfg, keyBits, valueBits) && cfg.sliceAddr < WORD64
    requires key != [] && i < MAX_COLLISION
    ensures var f := Folded(cfg, keyBits, key, pool);
            ProbeSlot(cfg, keyBits, key, pool, i) == Shl(SlotNumber(f, i, keyBits, valueBits), valueBits)
  {
    var f := Folded(cfg, keyBits, key, pool);
    FoldedFits(cfg, keyBits, key, pool);
    FirstProbeIs(cfg, keyBits, valueBits, key, pool);
    if i > 0 {
      ProbeFrom(cfg, keyBits, valueBits, f, i);
    }
  }

  lemma FirstProbeIs(cfg: Config, keyBits: nat, valueBits: nat, key: seq<Byte>, pool: nat)
    requires Splits(cfg, keyBits, valueBits) && key != [] && Folded(cfg, keyBits, key, pool) < Pow2(keyBits)
    ensures KeyHashOf(cfg, key, pool, keyBits, true) == Shl(Folded(cfg, keyBits, key, pool), valueBits)
  {
    Pow2Of64();
    WordHasRoom(keyBits, valueBits, Folded(cfg, keyBits, key, pool), 0, 60, 64);
  }

  lemma ProbeFrom(cfg: Config, keyBits: nat, valueBits: nat, f: nat, i: nat)
    requires Splits(cfg, keyBits, valueBits) && f < Pow2(keyBits) && 0 < i < MAX_COLLISION
    ensures SequentialProbe(cfg, Shl(f, valueBits), i, valueBits)
            == Shl(SlotNumber(f, i, keyBits, valueBits), valueBits)
  {
    Pow2Of64();
    WordHasRoom(keyBits, valueBits, f, i, 60, 64);
    ShlAdds(f, i, valueBits);
    WrappedProbe(keyBits, valueBits, f + i);
  }

  lemma ShlAdds(a: nat, b: nat, n: nat)
    ensures Shl(a, n) + Shl(b, n) == Shl(a + b, n)
  {
    assert a * Pow2(n) + b * Pow2(n) == (a + b) * Pow2(n);
  }

  lemma WordHasRoom(keyBits: nat, valueBits: nat, f: nat, i: nat, address: nat, word: nat)
    requires keyBits + valueBits <= address && address + 4 == word && Pow2(word) == WORD64
    requires f < Pow2(keyBits) && i <= 8
    ensures Shl(f, valueBits) + Shl(i, valueBits) < WORD64
  {
    SlotInside(f, keyBits, valueBits);
    Pow2Monotone(keyBits + valueBits, address);
    Pow2Monotone(valueBits, address);
    assert Pow2(4) == 16;
    Pow2Add(address, 4);
    assert (8 - i) * Pow2(valueBits) >= 0;
  }

  /** (a * d) % (q * d) is (a % q) * d. */
  lemma ModScales(a: nat, q: nat, d: nat)
    requires q > 0 && d > 0
    ensures q * d > 0 && (a * d) % (q * d) == (a % q) * d
  {
    assert q * d >= d by { MultipleIsFar(q, d); }
    assert a * d == (a / q) * (q * d) + (a % q) * d by {
      assert a == (a / q) * q + a % q;
      assert ((a / q) * q + a % q) * d == (a / q) * (q * d) + (a % q) * d;
    }
    ProductBound(a % q, q, d);
    DivModUnique(a * d, q * d, a / q, (a % q) * d);
  }

  /** A wrapped probe: with at least as many key bits as value bits it is a whole slot
      number below 2^(keyBits - valueBits); with fewer it is always address 0. */
  lemma WrappedProbe(keyBits: nat, valueBits: nat, n: nat)
    ensures Shl(n, valueBits) % Pow2(keyBits)
            == Shl(if keyBits >= valueBits then n % Pow2(keyBits - valueBits) else 0, valueBits)
  {
    if keyBits >= valueBits {
      Pow2Add(keyBits - valueBits, valueBits);
      ModScales(n, Pow2(keyBits - valueBits), Pow2(valueBits));
    } else {
      var extra := Pow2(valueBits - keyBits);
      Pow2Add(valueBits - keyBits, keyBits);
      assert n * (extra * Pow2(keyBits)) == (n * extra) * Pow2(keyBits);
      ModOfMultiple(n * extra, Pow2(keyBits));
    }
  }

  /** Every probe is slot-aligned and its slot inside the sparse address space. */
  lemma ProbesArePlaced(cfg: Config, keyBits: nat, valueBits: nat, key: seq<Byte>, pool: nat, i: nat)
    requires Splits(cfg, keyBits, valueBits) && cfg.sliceAddr < WORD64
    requires key != [] && i < MAX_COLLISION
    ensures ProbeSlot(cfg, keyBits, key, pool, i) % Pow2(valueBits) == 0
    ensures ProbeSlot(cfg, keyBits, key, pool, i) + Pow2(valueBits) <= Pow2(cfg.alignBits)
  {
    var f := Folded(cfg, keyBits, key, pool);
    FoldedFits(cfg, keyBits, key, pool);
    ProbeSlotIs(cfg, keyBits, valueBits, key, pool, i);
    SlotNumberFits(f, i, keyBits, valueBits);
    SlotInside(SlotNumber(f, i, keyBits, valueBits), keyBits, valueBits);
  }

  lemma SlotInside(n: nat, keyBits: nat, valueBits: nat)
    requires n < Pow2(keyBits)
    ensures Shl(n, valueBits) % Pow2(valueBits) == 0
    ensures Shl(n, valueBits) + Pow2(valueBits) <= Pow2(keyBits + valueBits)
  {
    Pow2Add(keyBits, valueBits);
    ProductBound(n, Pow2(keyBits), Pow2(valueBits));
    ModOfMultiple(n, Pow2(valueBits));
  }

  ghost predicate ProbesDistinct(cfg: Config, keyBits: nat, key: seq<Byte>, pool: nat)
    requires ValidLength(cfg, keyBits, true)
  {
    forall i, j :: 0 <= i < j < MAX_COLLISION ==>
      ProbeSlot(cfg, keyBits, key, pool, i) != ProbeSlot(cfg, keyBits, key, pool, j)
  }

  /** The eight probes of a key are distinct exactly when the layout leaves three more key
      bits than value bits, whatever the key. */
  lemma ProbesDistinctIff(cfg: Config, keyBits: nat, valueBits: nat, key: seq<Byte>, pool: nat)
    requires Splits(cfg, keyBits, valueBits) && cfg.sliceAddr < WORD64 && key != []
    ensures ProbesDistinct(cfg, keyBits, key, pool) <==> keyBits >= valueBits + 3
  {
    var f := Folded(cfg, keyBits, key, pool);
    if keyBits >= valueBits + 3 {
      forall i, j | 0 <= i < j < MAX_COLLISION
        ensures ProbeSlot(cfg, keyBits, key, pool, i) != ProbeSlot(cfg, keyBits, key, pool, j)
      {
        ProbeSlotIs(cfg, keyBits, valueBits, key, pool, i);
        ProbeSlotIs(cfg, keyBits, valueBits, key, pool, j);
        Pow2Monotone(3, keyBits - valueBits);
        assert Pow2(3) == 8;
        ResiduesDiffer(f, i, j, Pow2(keyBits - valueBits));
        Separate(SlotNumber(f, i, keyBits, valueBits), SlotNumber(f, j, keyBits, valueBits), valueBits);
      }
    } else {
      var j := if keyBits < valueBits then 2 else 1 + Pow2(keyBits - valueBits);
      SlotsRepeat(f, keyBits, valueBits);
      ProbeSlotIs(cfg, keyBits, valueBits, key, pool, 1);
      ProbeSlotIs(cfg, keyBits, valueBits, key, pool, j);
      assert ProbeSlot(cfg, keyBits, key, pool, 1) == ProbeSlot(cfg, keyBits, key, pool, j);
    }
  }

  lemma SlotsRepeat(f: nat, keyBits: nat, valueBits: nat)
    requires keyBits < valueBits + 3
    ensures var j := if keyBits < valueBits then 2 else 1 + Pow2(keyBits - valueBits);
            1 < j < MAX_COLLISION
            && SlotNumber(f, 1, keyBits, valueBits) == SlotNumber(f, j, keyBits, valueBits)
  {
    if keyBits >= valueBits {
      Pow2Monotone(keyBits - valueBits, 2);
      assert Pow2(2) == 4;
      var q := Pow2(keyBits - valueBits);
      DivModUnique(f + 1 + q, q, (f + 1) / q + 1, (f + 1) % q);
    }
  }

  lemma ResiduesDiffer(f: nat, i: nat, j: nat, q: nat)
    requires i < j < 8 <= q
    ensures (f + j) % q != (if i == 0 then f else (f + i) % q)
  {
    var a := (f + i) / q;
    if i == 0 {
      if f < q {
        if f + j < q {
          DivModUnique(f + j, q, 0, f + j);
        } else {
          DivModUnique(f + j, q, 1, f + j - q);
        }
      }
    } else {
      var r := (f + i) % q;
      if r + (j - i) < q {
        DivModUnique(f + j, q, a, r + (j - i));
      } else {
        assert f + j == (a + 1) * q + (r + (j - i) - q);
        DivModUnique(f + j, q, a + 1, r + (j - i) - q);
      }
    }
  }

  lemma Separate(a: nat, b: nat, n: nat)
    requires a != b
    ensures Shl(a, n) != Shl(b, n)
  {
    assert (a - b) * Pow2(n) != 0 by { MultipleIsFar(a - b, Pow2(n)); }
  }

  /** Which probes fall on the first `records` slots, where the store keeps its own
      metadata. The hash is moved off them before folding, so nothing rules this out. */
  lemma ProbeOnMetadataIff(cfg: Config, keyBits: nat, valueBits: nat, key: seq<Byte>, pool: nat,
                           i: nat, records: nat)
    requires Splits(cfg, keyBits, valueBits) && cfg.sliceAddr < WORD64
    requires key != [] && i < MAX_COLLISION
    ensures ProbeSlot(cfg, keyBits, key, pool, i) < Shl(records, valueBits) <==>
            SlotNumber(Folded(cfg, keyBits, key, pool), i, keyBits, valueBits) < records
  {
    var n := SlotNumber(Folded(cfg, keyBits, key, pool), i, keyBits, valueBits);
    ProbeSlotIs(cfg, keyBits, valueBits, key, pool, i);
    if n < records {
      ProductBound(n, records, Pow2(valueBits));
    } else if n > records {
      ProductBound(records, n, Pow2(valueBits));
    }
  }

  /** The low address bits of a pool: its id, or its hash once ids outgrow the field. */
  function PoolHash(cfg: Config, poolBits: nat, maxPools: nat, pool: nat): nat
    requires poolBits < 64
  {
    if maxPools > Pow2(poolBits) then KeyHashOf(cfg, Le32(pool), 0, poolBits, false) else pool
  }

  lemma PoolHashFits(cfg: Config, poolBits: nat, maxPools: nat, pool: nat)
    requires poolBits < 64 && pool < maxPools && cfg.sliceAddr < WORD64
    ensures PoolHash(cfg, poolBits, maxPools, pool) < Pow2(poolBits)
  {
    FoldedFits(cfg, poolBits, Le32(pool), 0);
  }

  /** Up to 2^poolBits pools the hash of a pool is its id. With more it is the fold of the hash
      of the id's four bytes, low byte first, as a key of the default pool. */
  lemma PoolHashIs(cfg: Config, poolBits: nat, maxPools: nat, pool: nat,
                   b0: Byte, b1: Byte, b2: Byte, b3: Byte, upper: nat, low: nat)
    requires poolBits < 64 && cfg.sliceAddr < WORD64
    requires pool == b0 + 0x100 * b1 + 0x1_0000 * b2 + 0x100_0000 * b3
    requires Fnv1aOf(cfg, [b0, b1, b2, b3], 0) == Shl(upper, poolBits) + low && low < Pow2(poolBits)
    ensures PoolHash(cfg, poolBits, maxPools, pool) ==
            if Pow2(poolBits) < maxPools then BitXor(upper, low) % Pow2(poolBits) else pool
  {
    BytesOf(pool, b0, b1, b2, b3);
    RecordsAreSteppedOver(cfg, [b0, b1, b2, b3], 0);
    FoldXorsFields(Fnv1aOf(cfg, [b0, b1, b2, b3], 0), upper, low, poolBits);
  }

  /** The address a pair of this key is stored at when it takes probe i. */
  function ProbeLba(cfg: Config, keyBits: nat, key: seq<Byte>, pool: nat, poolHash: nat, i: nat): nat
    requires ValidLength(cfg, keyBits, true)
  {
    BitOr(ProbeSlot(cfg, keyBits, key, pool, i), poolHash)
  }

  /** Or-ing in the pool hash puts it in the clear low bits: slot and hash can be read back. */
  lemma ProbeLbaIs(cfg: Config, keyBits: nat, valueBits: nat, key: seq<Byte>, pool: nat, poolHash: nat, i: nat)
    requires Splits(cfg, keyBits, valueBits) && cfg.sliceAddr < WORD64
    requires key != [] && i < MAX_COLLISION && poolHash < Pow2(valueBits)
    ensures var lba, slot := ProbeLba(cfg, keyBits, key, pool, poolHash, i), Pow2(valueBits);
            lba == ProbeSlot(cfg, keyBits, key, pool, i) + poolHash && lba % slot == poolHash
  {
    var n := SlotNumber(Folded(cfg, keyBits, key, pool), i, keyBits, valueBits);
    FoldedFits(cfg, keyBits, key, pool);
    ProbeSlotIs(cfg, keyBits, valueBits, key, pool, i);
    OrOfDisjoint(n, poolHash, valueBits);
    AddToMultiple(n, poolHash, Pow2(valueBits));
  }
}
