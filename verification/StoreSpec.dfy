/** The store on a sector map: where a key's pairs can lie, how put picks an address, what
    get, exists and delete find. Sequential and without the collision cache. */
module StoreSpec {
  import opened Bits
  import opened HashFunc
  import opened Record
  import opened IoVectors
  import opened PutVectors

  datatype Option<T> = None | Some(value: T)

  datatype KeyId = KeyId(pool: Word32, key: seq<Byte>)

  datatype ExpiryMode = DisableExpiry | ArbitraryExpiry | GlobalExpiry

  /** A store's fixed parameters; dataStart is the first sector of user data. */
  datatype StoreConfig = StoreConfig(hash: HashFunc.Config, keyBits: nat, valueBits: nat, maxPools: nat,
                                     dataStart: nat, caps: Capabilities, expiryMode: ExpiryMode)

  function SlotSize(cfg: StoreConfig): (n: nat)
    ensures n > 0
  {
    Pow2(cfg.valueBits)
  }

  predicate ValidConfig(cfg: StoreConfig) {
    && Splits(cfg.hash, cfg.keyBits, cfg.valueBits) && 0 < cfg.valueBits && cfg.hash.sliceAddr < WORD64
    && Usable(cfg.caps) && cfg.caps.sectorSize < 0x1_0000_0000
    && cfg.dataStart % SlotSize(cfg) == 0
  }

  function PoolHashOf(cfg: StoreConfig, pool: nat): nat
    requires ValidConfig(cfg)
  {
    PoolHash(cfg.hash, cfg.valueBits - 1, cfg.maxPools, pool)
  }

  /** The largest pair of this pool hash stays inside its slot. */
  predicate RoomForPairs(cfg: StoreConfig, poolHash: nat)
    requires ValidConfig(cfg)
  {
    poolHash + 1 + ValueSectors(cfg.caps, MAX_VALUE_SIZE) <= SlotSize(cfg)
  }

  function Probe(cfg: StoreConfig, id: KeyId, i: nat): nat
    requires ValidConfig(cfg)
  {
    ProbeLba(cfg.hash, cfg.keyBits, id.key, id.pool, PoolHashOf(cfg, id.pool), i)
  }

  /** A key this run may use: of the run's one pool hash, and not hashed onto the metadata. */
  ghost predicate InRun(cfg: StoreConfig, poolHash: nat, id: KeyId)
    requires ValidConfig(cfg)
  {
    && 0 < |id.key| <= MAX_KEY_SIZE && PoolHashOf(cfg, id.pool) == poolHash
    && forall i: nat :: i < MAX_COLLISION ==> Probe(cfg, id, i) >= cfg.dataStart
  }

  // ---- Reading the media -------------------------------------------------------------

  /** range_exists: some sector of the window is mapped. */
  predicate RangeFound(m: Media<Sector>, lba: nat, len: nat) {
    exists x :: lba <= x < lba + len && x in m
  }

  function ZeroSector(size: nat): (s: Sector)
    ensures |s| == size
  {
    seq(size, i => 0)
  }

  /** Unmapped sectors read as zero. */
  function ReadSector(cfg: StoreConfig, m: Media<Sector>, lba: nat): Sector {
    if lba in m then m[lba] else ZeroSector(cfg.caps.sectorSize)
  }

  function ReadSectors(cfg: StoreConfig, m: Media<Sector>, lba: nat, n: nat): (s: seq<Sector>)
    ensures |s| == n
  {
    seq(n, i requires 0 <= i < n => ReadSector(cfg, m, lba + i))
  }

  ghost predicate Sized(cfg: StoreConfig, m: Media<Sector>) {
    forall x :: x in m ==> |m[x]| == cfg.caps.sectorSize
  }

  /** A pair of this key starts at lba. */
  predicate HoldsAt(m: Media<Sector>, lba: nat, id: KeyId) {
    lba in m && |m[lba]| >= HEADER_SIZE && HoldsKey(m[lba], id.key, id.pool)
  }

  function HeaderAt(m: Media<Sector>, lba: nat): Header
    requires lba in m && |m[lba]| >= HEADER_SIZE
  {
    DecodeHeader(m[lba])
  }

  predicate Expired(cfg: StoreConfig, h: Header, now: nat) {
    !cfg.expiryMode.DisableExpiry? && now > h.expiry && h.expiry != 0
  }

  function Flatten(ss: seq<Sector>): seq<Byte>
    decreases |ss|
  {
    if ss == [] then [] else ss[0] + Flatten(ss[1..])
  }

  function Take(s: seq<Byte>, n: nat): seq<Byte> {
    if n <= |s| then s[..n] else s
  }

  /** The value bytes of the pair at lba: beside the header, or in the sectors after it. */
  function ValueAt(cfg: StoreConfig, m: Media<Sector>, lba: nat): seq<Byte>
    requires Usable(cfg.caps) && lba in m && |m[lba]| >= HEADER_SIZE
  {
    var h := HeaderAt(m, lba);
    if h.valueOffset < cfg.caps.sectorSize then
      (if h.valueOffset + h.valueLen <= |m[lba]| then m[lba][h.valueOffset..h.valueOffset + h.valueLen] else [])
    else Take(Flatten(ReadSectors(cfg, m, lba + 1, ValueSectors(cfg.caps, h.valueLen))), h.valueLen)
  }

  datatype Pair = Pair(value: seq<Byte>, valueLen: nat, expiry: nat, genCount: nat)

  function PairAt(cfg: StoreConfig, m: Media<Sector>, lba: nat): Pair
    requires Usable(cfg.caps) && lba in m && |m[lba]| >= HEADER_SIZE
  {
    var h := HeaderAt(m, lba);
    Pair(ValueAt(cfg, m, lba), h.valueLen, h.expiry, h.genCount)
  }

  /** First probe from i on that holds the key, or MAX_COLLISION. */
  function FindFrom(cfg: StoreConfig, m: Media<Sector>, id: KeyId, i: nat): (r: nat)
    requires ValidConfig(cfg) && i <= MAX_COLLISION
    ensures i <= r <= MAX_COLLISION
    ensures r < MAX_COLLISION ==> HoldsAt(m, Probe(cfg, id, r), id)
    ensures forall j :: i <= j < r ==> !HoldsAt(m, Probe(cfg, id, j), id)
    decreases MAX_COLLISION - i
  {
    if i == MAX_COLLISION || HoldsAt(m, Probe(cfg, id, i), id) then i else FindFrom(cfg, m, id, i + 1)
  }

  /** The pair a key denotes: the one at the first of its eight addresses that holds it. */
  function Lookup(cfg: StoreConfig, m: Media<Sector>, id: KeyId): Option<Pair>
    requires ValidConfig(cfg)
  {
    var i := FindFrom(cfg, m, id, 0);
    if i == MAX_COLLISION then None else Some(PairAt(cfg, m, Probe(cfg, id, i)))
  }

  // ---- Choosing an address (kv_gen_lba) ----------------------------------------------

  datatype Choice =
    | Fresh(i: nat)                 // nothing mapped in the window of probe i
    | Reuse(i: nat, trimLen: nat)   // probe i holds the key: expired, or to be replaced
    | AlreadyThere(i: nat)          // probe i holds the key and replace was not asked
    | NoRoom                        // eight probes held other keys

  function Choose(cfg: StoreConfig, m: Media<Sector>, id: KeyId, valueLen: nat, replace: bool, now: nat, i: nat): Choice
    requires ValidConfig(cfg) && i <= MAX_COLLISION
    decreases MAX_COLLISION - i
  {
    if i == MAX_COLLISION then NoRoom
    else
      var lba := Probe(cfg, id, i);
      if !RangeFound(m, lba, SlotSize(cfg)) then Fresh(i)
      else if HoldsAt(m, lba, id) then
        var h := HeaderAt(m, lba);
        if Expired(cfg, h, now) then Reuse(i, 0)
        else if replace then Reuse(i, if h.valueLen > valueLen then h.valueLen else 0)
        else AlreadyThere(i)
      else Choose(cfg, m, id, valueLen, replace, now, i + 1)
  }

  datatype Error = InvalidInput | InternalFailure | ObjectExists | ObjectNotFound | IoError

  /** What a put decides before it touches the device. */
  datatype PutDecision =
    | Refuse(error: Error)
    | Issue(lba: nat, trim: seq<Iov<Sector>>, vectors: seq<Iov<Sector>>, unfilled: nat)

  function IdOf(r: Request): KeyId {
    KeyId(r.pool, r.key)
  }

  /** What a put with this plan does once its address is chosen. */
  function Decide(cfg: StoreConfig, r: Request, plan: WritePlan, c: Choice): PutDecision
    requires ValidConfig(cfg) && ValidRequest(cfg.caps, r)
    requires PlanWrite(cfg.caps, |r.key|, r.valueLen, r.aligned) == Planned(plan)
  {
    match c
    case NoRoom => Refuse(InternalFailure)
    case AlreadyThere(_) => Refuse(ObjectExists)
    case Fresh(i) => IssueAfter(cfg, r, plan, Probe(cfg, IdOf(r), i), [])
    case Reuse(i, trimLen) =>
      var lba := Probe(cfg, IdOf(r), i);
      match TrimVector(cfg.caps, r.valueLen, trimLen, lba)
      case TrimTooLong => Refuse(InternalFailure)
      case Trims(trim) => IssueAfter(cfg, r, plan, lba, trim)
  }

  function IssueAfter(cfg: StoreConfig, r: Request, plan: WritePlan, lba: nat, trim: seq<Iov<Sector>>): PutDecision
    requires ValidConfig(cfg) && ValidRequest(cfg.caps, r)
    requires PlanWrite(cfg.caps, |r.key|, r.valueLen, r.aligned) == Planned(plan)
  {
    var writes := WriteVectors(cfg.caps, r, plan, lba);
    Issue(lba, trim, IssuedVectors(trim, writes, plan.iovCount), Unfilled(|trim + writes|, plan.iovCount))
  }

  function DecidePut(cfg: StoreConfig, m: Media<Sector>, r: Request, replace: bool, now: nat): PutDecision
    requires ValidConfig(cfg) && ValidRequest(cfg.caps, r)
  {
    match PlanWrite(cfg.caps, |r.key|, r.valueLen, r.aligned)
    case TooManyVectors => Refuse(InvalidInput)
    case Planned(plan) => Decide(cfg, r, plan, Choose(cfg, m, IdOf(r), r.valueLen, replace, now, 0))
  }

  /** The put issues no vector that nobody filled: what it does to the media is determined. */
  predicate AllFilled(cfg: StoreConfig, m: Media<Sector>, r: Request, replace: bool, now: nat)
    requires ValidConfig(cfg) && ValidRequest(cfg.caps, r)
  {
    var d := DecidePut(cfg, m, r, replace, now);
    d.Issue? ==> d.unfilled == 0
  }

  /** The media after a put whose write succeeds. */
  function AfterPut(cfg: StoreConfig, m: Media<Sector>, r: Request, replace: bool, now: nat): Media<Sector>
    requires ValidConfig(cfg) && ValidRequest(cfg.caps, r) && AllFilled(cfg, m, r, replace, now)
  {
    match DecidePut(cfg, m, r, replace, now)
    case Refuse(_) => m
    case Issue(_, _, vectors, _) => ApplyAll(m, vectors)
  }

  /** The media after a delete whose trims succeed: a slot's worth of sectors from the pair's
      first sector on, or nothing when the key is not found. */
  function AfterDelete(cfg: StoreConfig, m: Media<Sector>, id: KeyId): Media<Sector>
    requires ValidConfig(cfg)
  {
    var i := FindFrom(cfg, m, id, 0);
    if i == MAX_COLLISION then m else TrimRange(m, Probe(cfg, id, i), SlotSize(cfg))
  }

  /** What get returns: the first min(len, valueLen) bytes, with the pair's information. */
  datatype GetResult = Got(bytes: seq<Byte>, valueLen: nat, expiry: nat, genCount: nat) | GetFailed(error: Error)

  function GetOf(cfg: StoreConfig, m: Media<Sector>, id: KeyId, len: nat, now: nat): GetResult
    requires ValidConfig(cfg)
  {
    match Lookup(cfg, m, id)
    case None => GetFailed(ObjectNotFound)
    case Some(p) =>
      if !cfg.expiryMode.DisableExpiry? && now > p.expiry && p.expiry != 0 then GetFailed(ObjectNotFound)
      else Got(Take(p.value, Min(len, p.valueLen)), p.valueLen, p.expiry, p.genCount)
  }
}
