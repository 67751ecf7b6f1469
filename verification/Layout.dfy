/** How a store divides its sparse address space (src/kv_layout.cpp): the split of an address
    into key and value bits, and the regions in front of the user data. */
module Layout {
  import opened Bits
  import opened HashFunc
  import opened IoVectors
  import opened PutVectors
  import opened StoreSpec

  const MAX_VALUE_RANGE := 0x20_0000
  const STORE_METADATA_SIZE := 64
  const POOL_TAG_SIZE := 16
  const MAX_POOLS := 0x10_0000

  /** Sector sizes for which the regions before the first pool tag fit in one value range. */
  const MAX_SECTOR_BITS := 19

  lemma RangeIsPower()
    ensures Pow2(21) == MAX_VALUE_RANGE && Pow2(20) == MAX_VALUE_RANGE / 2
  {
    Pow2Square(5, 32);
    Pow2Square(10, 1024);
    Pow2Add(20, 1);
  }

  /** Sectors in one value range, the slot of one hash value. */
  function SlotSectors(sectorBits: nat): (n: nat)
    requires sectorBits <= 21
  {
    Pow2(21 - sectorBits)
  }

  lemma SlotBytes(sectorBits: nat)
    requires sectorBits <= 21
    ensures SlotSectors(sectorBits) * Pow2(sectorBits) == MAX_VALUE_RANGE
    ensures sectorBits <= 20 ==>
              Pow2(sectorBits) <= MAX_VALUE_RANGE / 2 && MaxValueInSector(Pow2(sectorBits)) == SlotSectors(sectorBits)
  {
    RangeIsPower();
    Pow2Add(21 - sectorBits, sectorBits);
    ModOfMultiple(SlotSectors(sectorBits), Pow2(sectorBits));
    if sectorBits <= 20 { Pow2Monotone(sectorBits, 20); }
  }

  /** Of two powers of two, the exponents order as the powers do. */
  lemma Pow2Unique(a: nat, b: nat, x: nat)
    requires Pow2(a) <= x < 2 * Pow2(a) && Pow2(b) <= x < 2 * Pow2(b)
    ensures a == b
  {
    if a < b {
      Pow2Monotone(a, b);
    } else if b < a {
      Pow2Monotone(b, a);
    }
  }

  function SectorsFor(bytes: nat, sectorBits: nat): nat {
    CeilDiv(bytes, Pow2(sectorBits))
  }

  /** The round-up of the source, divided by the block, is the ceiling of the quotient. */
  lemma RoundedSectors(bytes: nat, bits: nat)
    requires bits <= 21 && bytes <= 0x1_0000_0000
    ensures Pow2(bits) < WORD64
    ensures RoundUptoBlk(bytes, Pow2(bits)) == SectorsFor(bytes, bits) * Pow2(bits)
    ensures Pow2(bits) <= MAX_VALUE_RANGE && RoundedUp(bytes, Pow2(bits)) == SectorsFor(bytes, bits)
  {
    RangeIsPower();
    Pow2Monotone(bits, 21);
    RoundUpIsLeastMultiple(bytes, bits);
    QuotientOfMultiple(SectorsFor(bytes, bits), Pow2(bits));
  }

  lemma QuotientOfMultiple(q: nat, d: nat)
    requires d > 0
    ensures q * d >= 0 && Quotient(q * d, d) == q
  {
    MultipleIsFar(q, d);
    ModOfMultiple(q, d);
  }

  /** Bytes of a pool bitmap: whole 32-bit words. */
  function BitmapBytes(maxPools: nat): nat {
    CeilDiv(maxPools, 32) * 4
  }

  /** The fewest words that have a bit for every pool. */
  lemma BitmapBytesHoldPools(maxPools: nat)
    ensures BitmapBytes(maxPools) % 4 == 0 && maxPools <= 8 * BitmapBytes(maxPools) < maxPools + 32
  {
    CeilDivBounds(maxPools, 32);
  }

  /** Whole sectors in a value range. */
  function MaxValueInSector(sectorSize: nat): (n: nat)
    requires 0 < sectorSize <= MAX_VALUE_RANGE / 2
    ensures n >= 2
  {
    QuotientAtLeast(MAX_VALUE_RANGE, sectorSize, 2);
    MAX_VALUE_RANGE / sectorSize
  }

  /** Sectors that a block of bytes takes, as the source rounds it. */
  function RoundedUp(bytes: nat, sectorSize: nat): nat
    requires 0 < sectorSize <= MAX_VALUE_RANGE
  {
    Quotient(RoundUptoBlk(bytes, sectorSize), sectorSize)
  }

  class KvLayout {
    const sectorSize: nat
    const sectorBits: nat
    const valueBits: nat
    const keyBits: int
    const poolBits: nat
    const kvLen: nat
    const maxValueSize: int
    const inUseBitmapLba: nat
    const poolTagsLba: nat
    var metadataRecords: nat
    var dataStartLba: nat
    var deletedBitmapLba: nat

    /** The shift loops take the floor of a logarithm. */
    constructor (sectorSize: nat, sparseAddrBits: nat)
      requires 0 < sectorSize <= MAX_VALUE_RANGE / 2
      ensures this.sectorSize == sectorSize
      ensures Pow2(sectorBits) <= sectorSize < 2 * Pow2(sectorBits)
      ensures Pow2(valueBits) <= MaxValueInSector(sectorSize) < 2 * Pow2(valueBits)
      ensures keyBits + valueBits == sparseAddrBits && poolBits == valueBits - 1
      ensures kvLen == Pow2(sparseAddrBits) && maxValueSize == MAX_VALUE_RANGE / 2 - sectorSize
      ensures inUseBitmapLba == RoundedUp(STORE_METADATA_SIZE, sectorSize)
      ensures poolTagsLba == MaxValueInSector(sectorSize)
      ensures metadataRecords == 0 && dataStartLba == 0 && deletedBitmapLba == 0
    {
      var sectors := MaxValueInSector(sectorSize);
      var sectBits := FloorLog2(sectorSize);
      var valBits := FloorLog2(sectors);
      assert Pow2(0) == 1;
      this.sectorSize := sectorSize;
      this.sectorBits := sectBits;
      this.valueBits := valBits;
      this.inUseBitmapLba := RoundedUp(STORE_METADATA_SIZE, sectorSize);
      this.poolTagsLba := sectors;
      this.maxValueSize := MAX_VALUE_RANGE / 2 - sectorSize;
      this.keyBits := sparseAddrBits - valBits;
      this.poolBits := valBits - 1;
      this.kvLen := Pow2(sparseAddrBits);
      this.metadataRecords := 0;
      this.dataStartLba := 0;
      this.deletedBitmapLba := 0;
    }

    /** set_md_rec. */
    method SetMetadataRecords(records: nat)
      modifies this`metadataRecords, this`dataStartLba
      requires sectorSize > 0
      ensures metadataRecords == records && dataStartLba == Quotient(records * MAX_VALUE_RANGE, sectorSize)
    {
      metadataRecords := records;
      dataStartLba := Quotient(records * MAX_VALUE_RANGE, sectorSize);
    }

    /** The sizing that the store and the pool manager do when they are initialized, for
        sectors of 2^s bytes: every region ends up where the specification puts it. */
    method PlaceRegions(maxPools: nat, ghost s: nat)
      requires 1 <= maxPools <= MAX_POOLS && s <= MAX_SECTOR_BITS && sectorSize == Pow2(s)
      modifies this`metadataRecords, this`dataStartLba, this`deletedBitmapLba
      ensures metadataRecords == RecordsFor(maxPools, s)
      ensures dataStartLba == DataStart(maxPools, s)
      ensures deletedBitmapLba == inUseBitmapLba + SectorsFor(BitmapBytes(maxPools), s)
    {
      RoundedSectors(POOL_TAG_SIZE * maxPools, s);
      var tagBytes := RoundUptoBlk(POOL_TAG_SIZE * maxPools, sectorSize);
      TagBytesBounded(maxPools, s);
      RangeIsPower();
      RoundedSectors(tagBytes, 21);
      var records := RoundedUp(tagBytes, MAX_VALUE_RANGE) + 1;
      SetMetadataRecords(records);
      RecordSectors(records, s);
      CeilDivBounds(maxPools, 32);
      RoundedSectors(BitmapBytes(maxPools), s);
      deletedBitmapLba := inUseBitmapLba + RoundedUp(BitmapBytes(maxPools), sectorSize);
    }
  }

  lemma QuotientAtLeast(x: nat, d: nat, n: nat)
    requires d > 0 && n * d <= x
    ensures n <= x / d
  {
    var q := Quotient(x, d);
    if q < n {
      ProductBound(q, n, d);
    }
  }

  /** A layout for sectors of 2^s bytes has s sector bits and 21 - s value bits. */
  lemma BitsOfLayout(layout: KvLayout, s: nat)
    requires s <= 20 && layout.sectorSize == Pow2(s) <= MAX_VALUE_RANGE / 2
    requires Pow2(layout.sectorBits) <= layout.sectorSize < 2 * Pow2(layout.sectorBits)
    requires Pow2(layout.valueBits) <= MaxValueInSector(layout.sectorSize) < 2 * Pow2(layout.valueBits)
    ensures layout.sectorBits == s && layout.valueBits == 21 - s
  {
    SlotBytes(s);
    Pow2Unique(layout.sectorBits, s, Pow2(s));
    Pow2Unique(layout.valueBits, 21 - s, SlotSectors(s));
  }

  // ---- Regions -----------------------------------------------------------------------

  /** Value ranges given to metadata: one for the bitmaps and what the rounded tag table takes. */
  function RecordsFor(maxPools: nat, sectorBits: nat): nat {
    CeilDiv(SectorsFor(POOL_TAG_SIZE * maxPools, sectorBits) * Pow2(sectorBits), MAX_VALUE_RANGE) + 1
  }

  lemma TagBytesBounded(maxPools: nat, s: nat)
    requires maxPools <= MAX_POOLS && s <= MAX_SECTOR_BITS
    ensures 0 <= SectorsFor(POOL_TAG_SIZE * maxPools, s) * Pow2(s) <= 0x400_0000
  {
    RangeIsPower();
    Pow2Monotone(s, 20);
    CeilDivBounds(POOL_TAG_SIZE * maxPools, Pow2(s));
  }

  lemma RecordSectors(records: nat, s: nat)
    requires s <= 21
    ensures Quotient(records * MAX_VALUE_RANGE, Pow2(s)) == Shl(records, 21 - s)
  {
    SlotBytes(s);
    Reassociate(records, SlotSectors(s), Pow2(s));
    QuotientOfMultiple(Shl(records, 21 - s), Pow2(s));
  }

  lemma Reassociate(a: nat, b: nat, c: nat)
    ensures a * (b * c) == (a * b) * c
  {
  }

  /** A contiguous run of sectors [from, to). */
  datatype Region = Region(from: nat, to: nat)

  /** In address order: store metadata, in-use bitmap, deleted bitmap, tag table. */
  function MetadataRegions(maxPools: nat, s: nat): (rs: seq<Region>)
    requires s <= 21
    ensures |rs| == 4
  {
    var inUse := SectorsFor(STORE_METADATA_SIZE, s);
    var bitmap := SectorsFor(BitmapBytes(maxPools), s);
    var tags := SlotSectors(s);
    [Region(0, inUse), Region(inUse, inUse + bitmap), Region(inUse + bitmap, inUse + 2 * bitmap),
     Region(tags, tags + SectorsFor(POOL_TAG_SIZE * maxPools, s))]
  }

  function DataStart(maxPools: nat, s: nat): nat
    requires s <= 21
  {
    Shl(RecordsFor(maxPools, s), 21 - s)
  }

  /** Nonempty regions, each ending before the next begins. */
  predicate Ordered(rs: seq<Region>) {
    && (forall i :: 0 <= i < |rs| ==> rs[i].from < rs[i].to)
    && (forall i, j :: 0 <= i < j < |rs| ==> rs[i].to <= rs[j].from)
  }

  /** For every sector size of 2^s bytes and every number of pools up to the maximum, the
      regions in front of the user data are disjoint exactly when s is at most 19: with larger
      sectors the two bitmaps run into the tag table. */
  lemma RegionsOrderedIff(maxPools: nat, s: nat)
    requires 1 <= maxPools <= MAX_POOLS && s <= 20
    ensures Ordered(MetadataRegions(maxPools, s)) <==> s <= MAX_SECTOR_BITS
  {
    var meta, bitmap := SectorsFor(STORE_METADATA_SIZE, s), SectorsFor(BitmapBytes(maxPools), s);
    CeilDivBounds(maxPools, 32);
    SmallRegion(STORE_METADATA_SIZE, s);
    SmallRegion(BitmapBytes(maxPools), s);
    SmallRegion(POOL_TAG_SIZE * maxPools, s);
    var rs := MetadataRegions(maxPools, s);
    if s <= MAX_SECTOR_BITS {
      SlotBytes(s);
      RangeIsPower();
      Pow2Monotone(s, 19);
      Pow2Add(19, 1);
      BitmapsFit(meta, bitmap, SlotSectors(s), Pow2(s));
    } else {
      assert SlotSectors(s) == 2;
      assert rs[2].to > rs[3].from;
    }
  }

  lemma BitmapsFit(meta: nat, bitmap: nat, slot: nat, sector: nat)
    requires meta * sector < STORE_METADATA_SIZE + sector && bitmap * sector < 0x2_0004 + sector
    requires slot * sector == MAX_VALUE_RANGE && 0 < sector <= 0x8_0000
    ensures meta + 2 * bitmap <= slot
  {
    assert (meta + 2 * bitmap) * sector == meta * sector + 2 * (bitmap * sector);
    NoLonger(meta + 2 * bitmap, slot, sector);
  }

  /** A byte count of at least one takes at least a sector, and wastes less than one. */
  lemma SmallRegion(bytes: nat, s: nat)
    requires bytes > 0
    ensures SectorsFor(bytes, s) > 0 && SectorsFor(bytes, s) * Pow2(s) < bytes + Pow2(s)
  {
    CeilDivBounds(bytes, Pow2(s));
    MultipleIsFar(SectorsFor(bytes, s), Pow2(s));
  }

  lemma NoLonger(a: nat, b: nat, d: nat)
    requires d > 0 && a * d <= b * d
    ensures a <= b
  {
    if a > b {
      ProductBound(b, a, d);
    }
  }

  /** The user data start on a slot boundary, after the tag table. */
  lemma DataAfterTags(maxPools: nat, s: nat)
    requires 1 <= maxPools <= MAX_POOLS && s <= MAX_SECTOR_BITS
    ensures MetadataRegions(maxPools, s)[3].to <= DataStart(maxPools, s)
    ensures DataStart(maxPools, s) % SlotSectors(s) == 0
  {
    var tags, ranges := SectorsFor(POOL_TAG_SIZE * maxPools, s), RecordsFor(maxPools, s) - 1;
    TagBytesBounded(maxPools, s);
    CeilDivBounds(tags * Pow2(s), MAX_VALUE_RANGE);
    SlotBytes(s);
    TagsWithin(tags, ranges, SlotSectors(s), Pow2(s));
    ModOfMultiple(ranges + 1, SlotSectors(s));
  }

  lemma TagsWithin(tags: nat, ranges: nat, slot: nat, sector: nat)
    requires tags * sector <= ranges * MAX_VALUE_RANGE && slot * sector == MAX_VALUE_RANGE && sector > 0
    ensures slot + tags <= (ranges + 1) * slot
  {
    Reassociate(ranges, slot, sector);
    NoLonger(tags, ranges * slot, sector);
  }

  // ---- Size of the address space -----------------------------------------------------

  function BitLength(x: nat): nat {
    if x == 0 then 0 else 1 + BitLength(x / 2)
  }

  /** The loop `while (x) { bits++; x >>= 1; }`. */
  method CountBits(x: nat) returns (bits: nat)
    ensures bits == BitLength(x)
  {
    bits := 0;
    var rest := x;
    while rest > 0
      invariant bits + BitLength(rest) == BitLength(x)
      decreases rest
    {
      bits := bits + 1;
      rest := rest / 2;
    }
  }

  /** comp_sparse_addr_bits. */
  method CompSparseAddrBits(size: nat, sectorSize: nat) returns (bits: int)
    ensures bits == SparseBits(size, sectorSize)
  {
    var sizeBits: int := CountBits(size);
    var sectorBits: int := CountBits(sectorSize);
    bits := sizeBits - sectorBits;
  }

  function SparseBits(size: nat, sectorSize: nat): int {
    BitLength(size) - BitLength(sectorSize)
  }

  lemma {:induction false} BitLengthBounds(x: nat)
    requires x > 0
    ensures BitLength(x) > 0 && Pow2(BitLength(x) - 1) <= x < 2 * Pow2(BitLength(x) - 1)
  {
    if x > 1 {
      BitLengthBounds(x / 2);
    }
  }

  /** On a device of at least one sector, 2^bits sectors are the largest power of two that
      fits; on a smaller one the count is negative. */
  lemma SparseSpaceIsLargestFit(size: nat, s: nat)
    ensures SparseBits(size, Pow2(s)) >= 0 <==> size >= Pow2(s)
    ensures SparseBits(size, Pow2(s)) >= 0 ==>
              var space := Pow2(SparseBits(size, Pow2(s))) * Pow2(s); space <= size < 2 * space
  {
    BitLengthBounds(Pow2(s));
    Pow2Unique(BitLength(Pow2(s)) - 1, s, Pow2(s));
    if size > 0 {
      BitLengthBounds(size);
      var top := BitLength(size) - 1;
      if top >= s {
        Pow2Add(top - s, s);
        Pow2Monotone(s, top);
      } else {
        Pow2Monotone(top, s);
      }
    }
  }

  // ---- Pairs in their slots ----------------------------------------------------------

  /** Pool hashes: the value bits but one. */
  function PoolHashes(s: nat): (n: nat)
    requires s <= 20
    ensures SlotSectors(s) == 2 * n
  {
    Pow2(20 - s)
  }

  /** A pair of this many sectors ends inside its slot. */
  predicate EndsInSlot(s: nat, poolHash: nat, sectors: nat)
    requires s <= 20
  {
    poolHash + sectors <= SlotSectors(s)
  }

  /** It also leaves the slot's last sector alone, so that it is not adjacent to the next slot. */
  predicate LeavesLastSector(s: nat, poolHash: nat, sectors: nat)
    requires s <= 20
  {
    poolHash + sectors < SlotSectors(s)
  }

  lemma HalfRange(s: nat)
    requires s <= 20
    ensures PoolHashes(s) * Pow2(s) == MAX_VALUE_RANGE / 2
  {
    RangeIsPower();
    Pow2Add(20 - s, s);
  }

  /** Every pair the store accepts stays inside the slot of its address. */
  lemma PairsStayInSlot(caps: Capabilities, s: nat, poolHash: nat, keyLen: nat, valueLen: nat)
    requires Usable(caps) && s <= 20 && caps.sectorSize == Pow2(s) && poolHash < PoolHashes(s)
    requires valueLen <= MAX_VALUE_SIZE
    ensures EndsInSlot(s, poolHash, PairSectors(caps, keyLen, valueLen))
    ensures poolHash + 1 + ValueSectors(caps, valueLen) <= SlotSectors(s)
  {
    HalfRange(s);
    CeilDivAtMost(valueLen, caps.sectorSize, PoolHashes(s));
  }

  /** Every pool hash leaves the last sector alone when the largest does. */
  lemma LargestHashDecides(s: nat, sectors: nat)
    requires s <= 20
    ensures (forall h: nat :: h < PoolHashes(s) ==> LeavesLastSector(s, h, sectors)) <==> sectors <= PoolHashes(s)
  {
    if sectors > PoolHashes(s) {
      assert !LeavesLastSector(s, PoolHashes(s) - 1, sectors);
    }
  }

  lemma LongestClearValue(valueLen: nat, sector: nat, half: nat)
    requires sector > 0 && half > 0 && half * sector == MAX_VALUE_RANGE / 2
    ensures 1 + CeilDiv(valueLen, sector) <= half <==> valueLen + sector <= MAX_VALUE_RANGE / 2
  {
    CeilDivAtMost(valueLen, sector, half - 1);
    assert (half - 1) * sector == half * sector - sector;
  }

  /** Whatever the pool, a pair leaves its slot's last sector alone exactly when it fits one
      sector or its value is no longer than half the range less a sector. */
  lemma LastSectorLeftIff(caps: Capabilities, s: nat, keyLen: nat, valueLen: nat)
    requires Usable(caps) && s <= 20 && caps.sectorSize == Pow2(s)
    ensures (forall h: nat :: h < PoolHashes(s) ==> LeavesLastSector(s, h, PairSectors(caps, keyLen, valueLen)))
            <==> !SpansSectors(caps, keyLen, valueLen) || valueLen + caps.sectorSize <= MAX_VALUE_RANGE / 2
  {
    HalfRange(s);
    LargestHashDecides(s, PairSectors(caps, keyLen, valueLen));
    LongestClearValue(valueLen, caps.sectorSize, PoolHashes(s));
  }

  /** The largest value the interface accepts respects that bound only for sectors of at most
      1024 bytes. */
  lemma AcceptedSizesLeaveLastSectorIff(caps: Capabilities, s: nat, keyLen: nat)
    requires Usable(caps) && 8 <= s <= MAX_SECTOR_BITS && caps.sectorSize == Pow2(s)
    ensures (forall h: nat :: h < PoolHashes(s) ==> LeavesLastSector(s, h, PairSectors(caps, keyLen, MAX_VALUE_SIZE)))
            <==> caps.sectorSize <= 1024
  {
    LastSectorLeftIff(caps, s, keyLen, MAX_VALUE_SIZE);
    RangeIsPower();
    Pow2Monotone(s, MAX_SECTOR_BITS);
    Pow2Add(19, 1);
  }

  /** The configuration a layout gives the store. */
  ghost predicate LaidOut(cfg: StoreConfig, s: nat) {
    && 8 <= s <= MAX_SECTOR_BITS && 1 <= cfg.maxPools <= MAX_POOLS
    && Usable(cfg.caps) && cfg.caps.sectorSize == Pow2(s) && cfg.valueBits == 21 - s
    && cfg.keyBits > 0 && cfg.hash.alignBits == cfg.keyBits + cfg.valueBits <= 60
    && cfg.hash.sliceAddr == RecordsFor(cfg.maxPools, s) && cfg.dataStart == DataStart(cfg.maxPools, s)
  }

  /** Such a configuration is valid and has room for the pairs of every pool. */
  lemma LaidOutHasRoom(cfg: StoreConfig, s: nat, pool: nat)
    requires LaidOut(cfg, s) && pool < cfg.maxPools
    ensures ValidConfig(cfg) && RoomForPairs(cfg, PoolHashOf(cfg, pool))
  {
    RangeIsPower();
    Pow2Monotone(s, 20);
    DataAfterTags(cfg.maxPools, s);
    TagBytesBounded(cfg.maxPools, s);
    CeilDivBounds(SectorsFor(POOL_TAG_SIZE * cfg.maxPools, s) * Pow2(s), MAX_VALUE_RANGE);
    PoolHashFits(cfg.hash, cfg.valueBits - 1, cfg.maxPools, pool);
    PairsStayInSlot(cfg.caps, s, PoolHashOf(cfg, pool), 0, MAX_VALUE_SIZE);
  }
}
