/** The store theorems on laid-out stores: which keys and which layouts they cover, and a
    configuration with a key that meets all their conditions. */
module StoreLayout {
  import opened Bits
  import opened HashFunc
  import opened Record
  import opened IoVectors
  import opened PutVectors
  import opened StoreSpec
  import opened StoreProofs
  import opened StoreRuns
  import opened Layout

  /** None of the eight slots of a folded hash is one of the metadata records. */
  predicate SlotsClear(f: nat, keyBits: nat, valueBits: nat, records: nat) {
    forall i: nat :: i < MAX_COLLISION ==> SlotNumber(f, i, keyBits, valueBits) >= records
  }

  /** Rounding up to a multiple of d does not pass a multiple of d. */
  lemma RoundedWithin(x: nat, d: nat, n: nat)
    requires d > 0 && x <= n * d
    ensures x <= CeilDiv(x, d) * d <= n * d
  {
    CeilDivBounds(x, d);
    CeilDivAtMost(x, d, n);
    if CeilDiv(x, d) < n {
      ProductBound(CeilDiv(x, d), n, d);
    }
  }

  lemma RoundedTagBytes(maxPools: nat, s: nat)
    requires 1 <= maxPools <= MAX_POOLS && s <= MAX_SECTOR_BITS
    ensures 0 < SectorsFor(POOL_TAG_SIZE * maxPools, s) * Pow2(s) <= 8 * MAX_VALUE_RANGE
  {
    RangeIsPower();
    Pow2Add(21, 3);
    Pow2Add(24 - s, s);
    RoundedWithin(POOL_TAG_SIZE * maxPools, Pow2(s), Pow2(24 - s));
  }

  /** A layout has two to nine metadata records. */
  lemma RecordsRange(maxPools: nat, s: nat)
    requires 1 <= maxPools <= MAX_POOLS && s <= MAX_SECTOR_BITS
    ensures 2 <= RecordsFor(maxPools, s) <= 9
  {
    RoundedTagBytes(maxPools, s);
    CeilDivAtMost(SectorsFor(POOL_TAG_SIZE * maxPools, s) * Pow2(s), MAX_VALUE_RANGE, 8);
    CeilDivAtMost(SectorsFor(POOL_TAG_SIZE * maxPools, s) * Pow2(s), MAX_VALUE_RANGE, 0);
  }

  /** Seven consecutive residues modulo at most eight include 0 or 1. */
  lemma HitsMetadata(f: nat, keyBits: nat, valueBits: nat) returns (i: nat)
    requires keyBits <= valueBits + 3
    ensures 1 <= i < MAX_COLLISION && SlotNumber(f, i, keyBits, valueBits) < 2
  {
    i := 1;
    if keyBits >= valueBits {
      var q := Pow2(keyBits - valueBits);
      Pow2Monotone(keyBits - valueBits, 3);
      assert Pow2(3) == 8;
      var r := f % q;
      i := if q < 8 || r > 0 then q - r else 1;
      DivModUnique(f + (q - r), q, f / q + 1, 0);
      if q == 8 && r == 0 {
        DivModUnique(f + 1, q, f / q, 1);
      }
    }
  }

  /** The folded hash just past the metadata in the second round of slots. */
  lemma ClearHash(keyBits: nat, valueBits: nat, records: nat) returns (f: nat)
    requires keyBits > valueBits + 3 && valueBits > 0 && 1 <= records <= 9
    ensures f < Pow2(keyBits) && SlotsClear(f, keyBits, valueBits, records)
  {
    var q := Pow2(keyBits - valueBits);
    Pow2Monotone(4, keyBits - valueBits);
    assert Pow2(4) == 16;
    Pow2Monotone(keyBits - valueBits + 1, keyBits);
    f := q + records - 1;
    forall i: nat | i < MAX_COLLISION ensures SlotNumber(f, i, keyBits, valueBits) >= records {
      if i > 0 {
        DivModUnique(f + i, q, 1, records - 1 + i);
      }
    }
  }

  /** Some folded hash keeps all its slots off the metadata exactly when the layout leaves more
      than three key bits beyond the value bits. */
  lemma ClearHashIff(keyBits: nat, valueBits: nat, records: nat)
    requires valueBits > 0 && 2 <= records <= 9
    ensures (exists f: nat :: f < Pow2(keyBits) && SlotsClear(f, keyBits, valueBits, records))
            <==> keyBits > valueBits + 3
  {
    if keyBits > valueBits + 3 {
      var f := ClearHash(keyBits, valueBits, records);
    } else {
      forall f: nat ensures !SlotsClear(f, keyBits, valueBits, records) {
        var i := HitsMetadata(f, keyBits, valueBits);
      }
    }
  }

  lemma PastRecordsIff(n: nat, records: nat, slot: nat, low: nat)
    requires low < slot
    ensures n * slot + low >= records * slot <==> n >= records
  {
    if n < records {
      ProductBound(n, records, slot);
    } else if n > records {
      ProductBound(records, n, slot);
    }
  }

  /** The slot number of a probe, and the low bits that name the pool. */
  lemma ProbeSplits(cfg: StoreConfig, s: nat, id: KeyId, i: nat)
    requires LaidOut(cfg, s) && id.pool < cfg.maxPools && id.key != [] && i < MAX_COLLISION
    ensures ValidConfig(cfg) && PoolHashOf(cfg, id.pool) < Pow2(cfg.valueBits)
    ensures Probe(cfg, id, i)
            == Shl(SlotNumber(Folded(cfg.hash, cfg.keyBits, id.key, id.pool), i, cfg.keyBits, cfg.valueBits),
                   cfg.valueBits)
               + PoolHashOf(cfg, id.pool)
  {
    LaidOutHasRoom(cfg, s, id.pool);
    PoolHashFits(cfg.hash, cfg.valueBits - 1, cfg.maxPools, id.pool);
    ProbeLbaIs(cfg.hash, cfg.keyBits, cfg.valueBits, id.key, id.pool, PoolHashOf(cfg, id.pool), i);
    ProbeSlotIs(cfg.hash, cfg.keyBits, cfg.valueBits, id.key, id.pool, i);
  }

  /** A key's probe reaches the user data exactly when its slot is past the metadata records. */
  lemma ProbePastMetadataIff(cfg: StoreConfig, s: nat, id: KeyId, i: nat)
    requires LaidOut(cfg, s) && id.pool < cfg.maxPools && id.key != [] && i < MAX_COLLISION
    ensures ValidConfig(cfg)
    ensures Probe(cfg, id, i) >= cfg.dataStart <==>
            SlotNumber(Folded(cfg.hash, cfg.keyBits, id.key, id.pool), i, cfg.keyBits, cfg.valueBits)
            >= RecordsFor(cfg.maxPools, s)
  {
    ProbeSplits(cfg, s, id, i);
    PastRecordsIff(SlotNumber(Folded(cfg.hash, cfg.keyBits, id.key, id.pool), i, cfg.keyBits, cfg.valueBits),
                   RecordsFor(cfg.maxPools, s), Pow2(cfg.valueBits), PoolHashOf(cfg, id.pool));
  }

  /** The store theorems cover a key of a laid-out store exactly when none of the eight slots of
      its folded hash is a metadata record. */
  lemma InRunIff(cfg: StoreConfig, s: nat, id: KeyId)
    requires LaidOut(cfg, s) && id.pool < cfg.maxPools && 0 < |id.key| <= MAX_KEY_SIZE
    ensures ValidConfig(cfg)
    ensures InRun(cfg, PoolHashOf(cfg, id.pool), id) <==>
            SlotsClear(Folded(cfg.hash, cfg.keyBits, id.key, id.pool), cfg.keyBits, cfg.valueBits,
                       RecordsFor(cfg.maxPools, s))
  {
    forall i: nat | i < MAX_COLLISION
      ensures ValidConfig(cfg)
      ensures Probe(cfg, id, i) >= cfg.dataStart <==>
              SlotNumber(Folded(cfg.hash, cfg.keyBits, id.key, id.pool), i, cfg.keyBits, cfg.valueBits)
              >= RecordsFor(cfg.maxPools, s)
    {
      ProbePastMetadataIff(cfg, s, id, i);
    }
    LaidOutHasRoom(cfg, s, id.pool);
  }

  /** On a layout with at most three key bits more than value bits every key has a probe on the
      metadata records, so the theorems cover none. */
  lemma NoKeyInRun(cfg: StoreConfig, s: nat, id: KeyId, poolHash: nat)
    requires LaidOut(cfg, s) && id.pool < cfg.maxPools && cfg.keyBits <= cfg.valueBits + 3
    ensures ValidConfig(cfg) && !InRun(cfg, poolHash, id)
  {
    LaidOutHasRoom(cfg, s, id.pool);
    if InRun(cfg, poolHash, id) {
      InRunIff(cfg, s, id);
      RecordsRange(cfg.maxPools, s);
      var i := HitsMetadata(Folded(cfg.hash, cfg.keyBits, id.key, id.pool), cfg.keyBits, cfg.valueBits);
      assert false;
    }
  }

  // ---- The conditions can be met ---------------------------------------------------------

  /** A small laid-out store: 2^8 sectors of 2^19 bytes, one pool, two metadata records. */
  function SampleConfig(): StoreConfig {
    StoreConfig(Config(8, 2), 6, 2, 1, 8, Capabilities(0x8_0000, 16, 64, 4096), DisableExpiry)
  }

  /** A put of one byte under a key of one byte. */
  function SampleRequest(key: Byte): Request {
    Request([key], 0, [ZeroSector(0x8_0000)], 1, true, 0, 0, ZeroSector(0x8_0000))
  }

  lemma SampleIsLaidOut()
    ensures LaidOut(SampleConfig(), 19) && ValidConfig(SampleConfig()) && RoomForPairs(SampleConfig(), 0)
    ensures PoolHashOf(SampleConfig(), 0) == 0
  {
    assert Pow2(2) == 4 && Pow2(9) == 512 && Pow2(10) == 1024;
    Pow2Add(9, 10);
    DivModUnique(16 + 0x8_0000 - 1, 0x8_0000, 1, 15);
    assert RecordsFor(1, 19) == 2;
    LaidOutHasRoom(SampleConfig(), 19, 0);
  }

  /** The fold to six bits of the hash of a byte. */
  lemma FoldOfByte(key: Byte, hash: nat, top: nat, next: nat, low: nat, f: nat)
    requires FnvBytes(FNV_BASIS, [key]) == hash == (top * 64 + next) * 64 + low && hash >= 2
    requires next < 64 && low < 64 && BitXor(next, low) == f
    ensures Folded(Config(8, 2), 6, [key], 0) == f
  {
    FoldSix(hash, top * 64 + next, top, next, low);
  }

  /** A fold to six bits reads the lowest two groups of six. */
  lemma FoldSix(h: nat, upper: nat, top: nat, next: nat, low: nat)
    requires h == upper * 64 + low && upper == top * 64 + next && next < 64 && low < 64
    ensures Fold(h, 6) == BitXor(next, low)
  {
    assert Pow2(6) == 64;
    FieldsApart(upper, low, 6);
    XorSplit(top, next, upper, low, 6);
    XorStaysInWord(next, low, 6);
    FoldIsLow(h, upper, BitXor(top, upper), BitXor(next, low), 6);
  }

  lemma LowFieldsOfKeys()
    ensures BitXor(0xb, 0x2c) == 39 && BitXor(0x24, 0x3) == 39
  {
    XorDigit(0x0, 0xb, 0x2, 0xc, 0x2, 0x7);
    XorDigit(0x2, 0x4, 0x0, 0x3, 0x2, 0x7);
  }

  /** The hashes of "A" and "T" fold to the same six bits. */
  lemma KeysCollide()
    ensures Folded(Config(8, 2), 6, [0x41], 0) == 39 && Folded(Config(8, 2), 6, [0x54], 0) == 39
  {
    FnvOfUpperA(0x41);
    FnvOfUpperT(0x54);
    LowFieldsOfKeys();
    FoldOfByte(0x41, 0xaf63_fc4c_8602_22ec, 0xa_f63f_c4c8_6022, 0xb, 0x2c, 39);
    FoldOfByte(0x54, 0xaf64_094c_8602_3903, 0xa_f640_94c8_6023, 0x24, 0x3, 39);
  }

  /** Their eight slots lie above the metadata records, and the second is not the first. */
  lemma SlotsAreClear()
    ensures SlotsClear(39, 6, 2, 2) && SlotNumber(39, 1, 6, 2) != 39
  {
    assert Pow2(4) == 16;
  }

  lemma SampleKeyInRun(key: Byte)
    requires key == 0x41 || key == 0x54
    ensures ValidConfig(SampleConfig()) && InRun(SampleConfig(), 0, KeyId(0, [key]))
  {
    SampleIsLaidOut();
    KeysCollide();
    SlotsAreClear();
    InRunIff(SampleConfig(), 19, KeyId(0, [key]));
  }

  /** An empty laid-out store models the empty map, and a first put of a run is allowed on it
      and writes its pair whole. */
  lemma FirstPutIsAllowed(key: Byte)
    requires key == 0x41 || key == 0x54
    ensures LaidOut(SampleConfig(), 19) && MapState(SampleConfig(), map[], 0, map[])
    ensures Allowed(SampleConfig(), map[], 0, map[], PutOp(SampleRequest(key), false, 0))
    ensures WritesPairWhole(SampleConfig(), map[], SampleRequest(key), false, 0)
  {
    SampleIsLaidOut();
    SampleKeyInRun(key);
    FormattedModelsEmpty(SampleConfig(), map[], 0);
    SampleFits(SampleConfig().caps, key);
    assert Choose(SampleConfig(), map[], KeyId(0, [key]), 1, false, 0, 0) == Fresh(0);
    FreshPutIsWhole(SampleConfig(), map[], SampleRequest(key), 0);
  }

  lemma SampleFits(caps: Capabilities, key: Byte)
    requires caps == SampleConfig().caps
    ensures var r := SampleRequest(key);
            ValidRequest(caps, r) && !SpansSectors(caps, |r.key|, r.valueLen)
            && PlanWrite(caps, |r.key|, r.valueLen, r.aligned).Planned?
  {
    DivModUnique(1 + 0x7_ffff, 0x8_0000, 1, 0);
    DivModUnique(HEADER_SIZE + 2 + 0x7_ffff, 0x8_0000, 1, HEADER_SIZE + 1);
    assert CeilDiv(1, 64) == 1;
  }

  lemma FreshPutIsWhole(cfg: StoreConfig, m: Media<Sector>, r: Request, i: nat)
    requires ValidConfig(cfg) && ValidRequest(cfg.caps, r) && i < MAX_COLLISION
    requires r.aligned && PlanWrite(cfg.caps, |r.key|, r.valueLen, r.aligned).Planned?
    requires Choose(cfg, m, IdOf(r), r.valueLen, false, 0, 0) == Fresh(i)
    ensures WritesPairWhole(cfg, m, r, false, 0)
  {
  }

  /** On this store, putting "A" and "T" and deleting "A" leaves a hole, and the next put of "T"
      makes a second copy. */
  lemma SecondCopyIsReached()
    ensures ValidConfig(SampleConfig()) && WholeRequest(SampleConfig(), 0, SampleRequest(0x41))
    ensures WholeRequest(SampleConfig(), 0, SampleRequest(0x54))
    ensures var cfg, a, t := SampleConfig(), SampleRequest(0x41), SampleRequest(0x54);
            var m := AfterDelete(cfg, AfterPut(cfg, AfterPut(cfg, map[], a, false, 0), t, false, 0), IdOf(a));
            AtMostOne(cfg, m, IdOf(t)) && !AtMostOne(cfg, AfterPut(cfg, m, t, false, 0), IdOf(t))
  {
    var cfg, a, t := SampleConfig(), SampleRequest(0x41), SampleRequest(0x54);
    FirstPutIsAllowed(0x41);
    FirstPutIsAllowed(0x54);
    SameFirstAddress();
    var m := HoleIsReached(cfg, map[], 0, a, t);
  }

  lemma SameFirstAddress()
    ensures ValidConfig(SampleConfig())
    ensures var cfg, a, t := SampleConfig(), KeyId(0, [0x41]), KeyId(0, [0x54]);
            Probe(cfg, a, 0) == Probe(cfg, t, 0) && Probe(cfg, t, 1) != Probe(cfg, t, 0)
  {
    var cfg := SampleConfig();
    SampleIsLaidOut();
    KeysCollide();
    SlotsAreClear();
    ProbeSplits(cfg, 19, KeyId(0, [0x41]), 0);
    ProbeSplits(cfg, 19, KeyId(0, [0x54]), 0);
    ProbeSplits(cfg, 19, KeyId(0, [0x54]), 1);
    Separate(SlotNumber(39, 1, 6, 2), 39, 2);
  }
}
