/** The store manager's operations as the source runs them: probe loops that re-hash, the
    vector-filling loop, and the device calls (src/kv_store_mgr.cpp). */
module Store {
  import opened Bits
  import opened HashFunc
  import opened Record
  import opened IoVectors
  import opened PutVectors
  import opened StoreSpec
  import opened StoreProofs

  datatype PutResult = Done(bytes: nat) | PutFailed(error: Error)

  /** Caller memory and the pool buffer come in whole sectors. */
  predicate Shaped(caps: Capabilities, r: Request) {
    && Usable(caps)
    && |r.memory| == ValueSectors(caps, r.valueLen) && |r.stale| == caps.sectorSize
    && forall i | 0 <= i < |r.memory| :: |r.memory[i]| == caps.sectorSize
  }

  predicate ValidLengths(r: Request) {
    0 < |r.key| <= MAX_KEY_SIZE && 0 < r.valueLen <= MAX_VALUE_SIZE
  }

  /** The expiry a header stores: relative to now unless zero; the store's own in global mode. */
  function AbsoluteExpiry(mode: ExpiryMode, global: Word32, expiry: Word32, now: nat): Word32 {
    var e := if mode.GlobalExpiry? then global else expiry;
    if e == 0 then 0 else (e + now) % 0x1_0000_0000
  }

  /** The request with the expiry its header will carry. */
  function Timed(mode: ExpiryMode, global: Word32, request: Request, now: nat): Request {
    request.(expiry := AbsoluteExpiry(mode, global, request.expiry, now))
  }

  lemma ZerosHoldNothing(cfg: StoreConfig, m: Media<Sector>, lba: nat, id: KeyId)
    requires ValidConfig(cfg) && Sized(cfg, m) && id.key != []
    ensures |ReadSector(cfg, m, lba)| == cfg.caps.sectorSize
    ensures HoldsKey(ReadSector(cfg, m, lba), id.key, id.pool) <==> HoldsAt(m, lba, id)
  {
  }

  lemma {:induction false} FlattenLength(ss: seq<Sector>, size: nat)
    requires forall i | 0 <= i < |ss| :: |ss[i]| == size
    ensures |Flatten(ss)| == |ss| * size
    decreases |ss|
  {
    if ss != [] {
      FlattenLength(ss[1..], size);
      assert |ss| * size == size + (|ss| - 1) * size;
    }
  }

  lemma {:induction false} FlattenAppend(a: seq<Sector>, b: seq<Sector>)
    ensures Flatten(a + b) == Flatten(a) + Flatten(b)
    decreases |a|
  {
    if a == [] {
      assert a + b == b;
    } else {
      assert (a + b)[1..] == a[1..] + b;
      FlattenAppend(a[1..], b);
    }
  }

  /** Reading more sectors than asked does not change the first bytes. */
  lemma ReadPrefix(cfg: StoreConfig, m: Media<Sector>, lba: nat, a: nat, b: nat, n: nat)
    requires ValidConfig(cfg) && Sized(cfg, m)
    requires n <= a * cfg.caps.sectorSize && n <= b * cfg.caps.sectorSize
    ensures |Flatten(ReadSectors(cfg, m, lba, a))| == a * cfg.caps.sectorSize
    ensures |Flatten(ReadSectors(cfg, m, lba, b))| == b * cfg.caps.sectorSize
    ensures Flatten(ReadSectors(cfg, m, lba, a))[..n] == Flatten(ReadSectors(cfg, m, lba, b))[..n]
  {
    var s, t := ReadSectors(cfg, m, lba, a), ReadSectors(cfg, m, lba, b);
    assert forall i | 0 <= i < a :: s[i] == ReadSector(cfg, m, lba + i);
    assert forall i | 0 <= i < b :: t[i] == ReadSector(cfg, m, lba + i);
    FlattenLength(s, cfg.caps.sectorSize);
    FlattenLength(t, cfg.caps.sectorSize);
    if a <= b {
      assert t == s + t[a..];
      FlattenAppend(s, t[a..]);
    } else {
      assert s == t + s[b..];
      FlattenAppend(t, s[b..]);
    }
  }

  /** The media after a batch of filled vectors followed by as many unfilled ones. */
  ghost predicate BatchDone(m: Media<Sector>, vectors: seq<Iov<Sector>>, unfilled: nat, m': Media<Sector>,
                            junk: seq<Iov<Sector>>) {
    |junk| == unfilled && m' == ApplyAll(m, vectors + junk)
  }

  /** How a put of a valid request ends: refused as decided, or written whole or not at all. What
      the vectors that nobody filled do is left open. */
  ghost predicate PutEnds(cfg: StoreConfig, m: Media<Sector>, r: Request, replace: bool, now: nat,
                          res: PutResult, m': Media<Sector>)
    requires ValidConfig(cfg) && ValidRequest(cfg.caps, r)
  {
    match DecidePut(cfg, m, r, replace, now)
    case Refuse(e) => res == PutFailed(e) && m' == m
    case Issue(_, _, vectors, unfilled) =>
      (res == Done(r.valueLen) && exists junk :: BatchDone(m, vectors, unfilled, m', junk))
      || (res == PutFailed(IoError) && m' == m)
  }

  /** With all vectors filled a put ends as the specification of the media says. */
  lemma FilledPutEnds(cfg: StoreConfig, m: Media<Sector>, r: Request, replace: bool, now: nat, res: PutResult,
                      m': Media<Sector>)
    requires ValidConfig(cfg) && ValidRequest(cfg.caps, r) && AllFilled(cfg, m, r, replace, now)
    requires PutEnds(cfg, m, r, replace, now, res, m')
    ensures m' == m || m' == AfterPut(cfg, m, r, replace, now)
    ensures res.Done? ==> DecidePut(cfg, m, r, replace, now).Issue? && m' == AfterPut(cfg, m, r, replace, now)
  {
    var d := DecidePut(cfg, m, r, replace, now);
    if d.Issue? && res.Done? {
      var junk :| BatchDone(m, d.vectors, d.unfilled, m', junk);
      assert d.vectors + junk == d.vectors;
    }
  }

  /** One atomic write of a batch, or none. */
  ghost predicate BatchIssued(m: Media<Sector>, vectors: seq<Iov<Sector>>, unfilled: nat, m': Media<Sector>, ok: bool,
                              junk: seq<Iov<Sector>>) {
    if ok then BatchDone(m, vectors, unfilled, m', junk) else m' == m
  }

  /** The first entries of an array that begins with the filled vectors: those, and what follows. */
  lemma CountedSplits(entries: seq<Iov<Sector>>, filled: seq<Iov<Sector>>, count: nat) returns (junk: seq<Iov<Sector>>)
    requires count <= |entries| && |filled| <= |entries| && entries[..|filled|] == filled
    ensures |junk| == Unfilled(|filled|, count)
    ensures entries[..count] == filled[..Min(count, |filled|)] + junk
  {
    junk := if count > |filled| then entries[|filled|..count] else [];
  }

  lemma {:induction false} ChosenInRange(cfg: StoreConfig, m: Media<Sector>, id: KeyId, valueLen: nat, replace: bool,
                                         now: nat, i: nat)
    requires ValidConfig(cfg) && i <= MAX_COLLISION
    ensures var c := Choose(cfg, m, id, valueLen, replace, now, i);
            c.NoRoom? || i <= c.i < MAX_COLLISION
    decreases MAX_COLLISION - i
  {
    if i < MAX_COLLISION {
      ChosenInRange(cfg, m, id, valueLen, replace, now, i + 1);
    }
  }

  lemma DecidedFromChoice(cfg: StoreConfig, m: Media<Sector>, r: Request, replace: bool, now: nat,
                          plan: WritePlan, c: Choice, trim: TrimResult)
    requires ValidConfig(cfg) && ValidRequest(cfg.caps, r)
    requires PlanWrite(cfg.caps, |r.key|, r.valueLen, r.aligned) == Planned(plan)
    requires c == Choose(cfg, m, IdOf(r), r.valueLen, replace, now, 0) && (c.Fresh? || c.Reuse?)
    requires trim == TrimVector(cfg.caps, r.valueLen, if c.Reuse? then c.trimLen else 0, Probe(cfg, IdOf(r), c.i))
    ensures trim.Trims? ==> |trim.vectors| <= 1
    ensures var writes := WriteVectors(cfg.caps, r, plan, Probe(cfg, IdOf(r), c.i));
            DecidePut(cfg, m, r, replace, now)
            == if trim.TrimTooLong? then Refuse(InternalFailure)
               else Issue(Probe(cfg, IdOf(r), c.i), trim.vectors, IssuedVectors(trim.vectors, writes, plan.iovCount),
                          Unfilled(|trim.vectors + writes|, plan.iovCount))
  {
  }

  class KvStore {
    const cfg: StoreConfig
    const dev: Device<Sector>
    var globalExpiry: Word32

    ghost predicate Valid()
      reads this, dev
    {
      && ValidConfig(cfg) && dev.Sound() && Sized(cfg, dev.media)
      && dev.maxIovs == cfg.caps.maxIovs && dev.maxWrite == cfg.caps.maxWrite && dev.maxTrim == cfg.caps.maxTrim
    }

    constructor (cfg: StoreConfig, dev: Device<Sector>, globalExpiry: Word32)
      requires ValidConfig(cfg) && dev.Sound() && Sized(cfg, dev.media)
      requires dev.maxIovs == cfg.caps.maxIovs && dev.maxWrite == cfg.caps.maxWrite && dev.maxTrim == cfg.caps.maxTrim
      ensures Valid() && this.cfg == cfg && this.dev == dev && this.globalExpiry == globalExpiry
    {
      this.cfg := cfg;
      this.dev := dev;
      this.globalExpiry := globalExpiry;
    }

    /** The first address of a key: its hash with the pool hash or-ed in. */
    method FirstAddress(id: KeyId) returns (init: nat, lba: nat)
      requires ValidConfig(cfg)
      ensures init == KeyHashOf(cfg.hash, id.key, id.pool, cfg.keyBits, true) && lba == Probe(cfg, id, 0)
    {
      init := KeyHash(cfg.hash, id.key, id.pool, cfg.keyBits, true);
      lba := BitOr(init, PoolHashOf(cfg, id.pool));
    }

    /** The next address after hashItr collisions. */
    method NextAddress(id: KeyId, init: nat, hashItr: nat) returns (lba: nat)
      requires ValidConfig(cfg) && hashItr > 0
      ensures init == KeyHashOf(cfg.hash, id.key, id.pool, cfg.keyBits, true) ==> lba == Probe(cfg, id, hashItr)
    {
      lba := BitOr(ResolveColl(cfg.hash, id.key, init, hashItr, cfg.keyBits, true), PoolHashOf(cfg, id.pool));
    }

    /** What put makes of its probe i at lba: a choice, or on to the next. */
    method ExamineProbe(id: KeyId, valueLen: nat, replace: bool, now: nat, i: nat, lba: nat)
      returns (stop: bool, c: Choice)
      requires Valid() && id.key != [] && i < MAX_COLLISION && lba == Probe(cfg, id, i)
      ensures Choose(cfg, dev.media, id, valueLen, replace, now, i)
              == if stop then c else Choose(cfg, dev.media, id, valueLen, replace, now, i + 1)
    {
      if !RangeFound(dev.media, lba, SlotSize(cfg)) {
        return true, Fresh(i);
      }
      var buf := ReadSector(cfg, dev.media, lba);
      ZerosHoldNothing(cfg, dev.media, lba, id);
      if !HoldsKey(buf, id.key, id.pool) {
        return false, NoRoom;
      }
      var hdr := DecodeHeader(buf);
      if Expired(cfg, hdr, now) {
        return true, Reuse(i, 0);
      }
      if !replace {
        return true, AlreadyThere(i);
      }
      return true, Reuse(i, if hdr.valueLen > valueLen then hdr.valueLen else 0);
    }

    /** kv_gen_lba: the put's probe loop, without the lock steps. */
    method GenLba(id: KeyId, valueLen: nat, replace: bool, now: nat) returns (c: Choice)
      requires Valid() && id.key != []
      ensures c == Choose(cfg, dev.media, id, valueLen, replace, now, 0)
    {
      var init, lba := FirstAddress(id);
      var hashItr := 1;
      while hashItr <= MAX_COLLISION
        invariant 1 <= hashItr <= MAX_COLLISION + 1
        invariant lba == Probe(cfg, id, hashItr - 1)
        invariant Choose(cfg, dev.media, id, valueLen, replace, now, 0)
               == Choose(cfg, dev.media, id, valueLen, replace, now, hashItr - 1)
      {
        var stop;
        stop, c := ExamineProbe(id, valueLen, replace, now, hashItr - 1, lba);
        if stop {
          return;
        }
        lba := NextAddress(id, init, hashItr);
        hashItr := hashItr + 1;
      }
      c := NoRoom;
    }

    /** The loop of kv_process_for_write: one vector for each `limit` sectors of the buffer. */
    method FillChunks(iovec: array<Iov<Sector>>, at: nat, data: seq<Sector>, base: nat) returns (count: nat)
      requires ValidConfig(cfg)
      requires at + |Chunks(data, base, cfg.caps.maxWrite)| <= iovec.Length
      modifies iovec
      ensures count == |Chunks(data, base, cfg.caps.maxWrite)|
      ensures iovec[..at] == old(iovec[..at])
      ensures iovec[at..at + count] == Chunks(data, base, cfg.caps.maxWrite)
    {
      var limit, remaining := cfg.caps.maxWrite, |data|;
      ghost var done, plan := 0, Chunks(data, base, limit);
      AllWritesAhead(data, base, limit);
      count := 0;
      while remaining > 0
        invariant done == Multiple(count, limit) && remaining == if done < |data| then |data| - done else 0
        invariant at + count <= iovec.Length && iovec[..at] == old(iovec[..at])
        invariant iovec[at..at + count] + WritesFrom(data, done, base, limit) == plan
        decreases remaining
      {
        var vectorSize := Min(remaining, limit);
        ghost var filled := iovec[at..at + count];
        WritesFromStep(data, done, base, limit, filled);
        assert |plan| > |filled| by {
          assert |filled + WritesFrom(data, done, base, limit)| > |filled|;
        }
        iovec[at + count] := NextWrite(data, Multiple(count, limit), base, limit);
        assert iovec[at..at + count + 1] == filled + [NextWrite(data, done, base, limit)];
        count := count + 1;
        remaining := remaining - vectorSize;
        done := done + limit;
      }
    }

    /** kv_process_for_write: fills the vector array from position `at` on. */
    method ProcessForWrite(iovec: array<Iov<Sector>>, at: nat, r: Request, plan: WritePlan, lba: nat)
      returns (filled: nat)
      requires ValidConfig(cfg) && ValidRequest(cfg.caps, r)
      requires PlanWrite(cfg.caps, |r.key|, r.valueLen, r.aligned) == Planned(plan)
      requires at + |WriteVectors(cfg.caps, r, plan, lba)| <= iovec.Length
      modifies iovec
      ensures filled == |WriteVectors(cfg.caps, r, plan, lba)|
      ensures iovec[..at + filled] == old(iovec[..at]) + WriteVectors(cfg.caps, r, plan, lba)
    {
      var head := [HeadSector(cfg.caps, r, plan)];
      if plan.userBuffer {
        iovec[at] := Write(head, lba);
        assert iovec[..at + 1] == old(iovec[..at]) + [Write(head, lba)];
        var count := FillChunks(iovec, at + 1, r.memory, lba + 1);
        filled := 1 + count;
        JoinSlices(iovec[..], at + 1, at + filled);
        Regrouped(old(iovec[..at]), Write(head, lba), Chunks(r.memory, lba + 1, cfg.caps.maxWrite));
      } else {
        filled := FillChunks(iovec, at, head, lba);
        JoinSlices(iovec[..], at, at + filled);
      }
    }

    /** kv_put. */
    method Put(request: Request, replace: bool, now: nat) returns (res: PutResult)
      requires Valid() && Shaped(cfg.caps, request)
      modifies dev
      ensures |request.key| == 0 || |request.key| > 128 || request.valueLen == 0 || request.valueLen > 1047552 ==>
                res == PutFailed(InvalidInput) && dev.media == old(dev.media)
      ensures 0 < |request.key| <= 128 && 0 < request.valueLen <= 1047552 ==>
                PutEnds(cfg, old(dev.media), Timed(cfg.expiryMode, globalExpiry, request, now), replace, now,
                        res, dev.media)
    {
      if !ValidLengths(request) {
        return PutFailed(InvalidInput);
      }
      var r := Timed(cfg.expiryMode, globalExpiry, request, now);
      var planned := PlanWrite(cfg.caps, |r.key|, r.valueLen, r.aligned);
      if planned.TooManyVectors? {
        return PutFailed(InvalidInput);
      }
      var c := GenLba(IdOf(r), r.valueLen, replace, now);
      if c.NoRoom? {
        return PutFailed(InternalFailure);
      } else if c.AlreadyThere? {
        return PutFailed(ObjectExists);
      }
      ChosenInRange(cfg, dev.media, IdOf(r), r.valueLen, replace, now, 0);
      var lba := Probe(cfg, IdOf(r), c.i);
      var trim := TrimVector(cfg.caps, r.valueLen, if c.Reuse? then c.trimLen else 0, lba);
      DecidedFromChoice(cfg, dev.media, r, replace, now, planned.plan, c, trim);
      if trim.TrimTooLong? {
        return PutFailed(InternalFailure);
      }
      ghost var before := dev.media;
      var ok;
      ghost var junk;
      ok, junk := IssueVectors(r, planned.plan, lba, trim.vectors);
      ghost var d := DecidePut(cfg, before, r, replace, now);
      assert ok ==> BatchDone(before, d.vectors, d.unfilled, dev.media, junk);
      return if ok then Done(r.valueLen) else PutFailed(IoError);
    }

    /** The end of kv_put: the array holds the trim vector, then the write vectors, and the
        device is given as many as were counted for the writes, filled or not. */
    method IssueVectors(r: Request, plan: WritePlan, lba: nat, trim: seq<Iov<Sector>>)
      returns (ok: bool, ghost junk: seq<Iov<Sector>>)
      requires Valid() && ValidRequest(cfg.caps, r) && |trim| <= 1
      requires PlanWrite(cfg.caps, |r.key|, r.valueLen, r.aligned) == Planned(plan)
      modifies dev
      ensures var writes := WriteVectors(cfg.caps, r, plan, lba);
              BatchIssued(old(dev.media), IssuedVectors(trim, writes, plan.iovCount),
                          Unfilled(|trim + writes|, plan.iovCount), dev.media, ok, junk)
    {
      var iovec := new Iov<Sector>[cfg.caps.maxIovs + 1];
      var index := |trim|;
      if index == 1 {
        iovec[0] := trim[0];
      }
      assert iovec[..index] == trim;
      FilledVectorsAreCounted(cfg.caps, r, plan, lba);
      WritesFitPlan(cfg.caps, r, plan);
      var filled := ProcessForWrite(iovec, index, r, plan, lba);
      junk := CountedSplits(iovec[..], trim + WriteVectors(cfg.caps, r, plan, lba), plan.iovCount);
      ok := dev.Writev(iovec[..plan.iovCount]);
    }

    /** kv_read_media without a value buffer: the probe index that holds the key. */
    method ReadMedia(id: KeyId) returns (i: nat)
      requires Valid() && id.key != []
      ensures i == FindFrom(cfg, dev.media, id, 0)
    {
      var init, lba := FirstAddress(id);
      var hashItr := 1;
      while hashItr <= MAX_COLLISION
        invariant 1 <= hashItr <= MAX_COLLISION + 1
        invariant lba == Probe(cfg, id, hashItr - 1)
        invariant FindFrom(cfg, dev.media, id, 0) == FindFrom(cfg, dev.media, id, hashItr - 1)
      {
        var buf := ReadSector(cfg, dev.media, lba);
        ZerosHoldNothing(cfg, dev.media, lba, id);
        if HoldsKey(buf, id.key, id.pool) {
          return hashItr - 1;
        }
        lba := NextAddress(id, init, hashItr);
        hashItr := hashItr + 1;
      }
      return MAX_COLLISION;
    }

    /** The reads of kv_get: the sectors after the header go to the caller's memory, and a
        value stored beside its header is copied over them. */
    method ReadValue(lba: nat, hdr: Header, len: nat) returns (bytes: seq<Byte>)
      requires Valid() && FitsSector(cfg, dev.media, lba) && hdr == HeaderAt(dev.media, lba)
      requires 0 < len && len % cfg.caps.sectorSize == 0
      ensures bytes == Take(ValueAt(cfg, dev.media, lba), Min(len, hdr.valueLen))
    {
      var sectors := len / cfg.caps.sectorSize;
      var value := Flatten(ReadSectors(cfg, dev.media, lba + 1, sectors));
      WholeSectors(len, cfg.caps.sectorSize);
      ReadLength(cfg, dev.media, lba + 1, len, sectors);
      if hdr.valueOffset < cfg.caps.sectorSize {
        GetReadsShort(cfg, dev.media, lba, len, value);
        value := Overwrite(value, 0, dev.media[lba][hdr.valueOffset..hdr.valueOffset + hdr.valueLen]);
        return value[..Min(len, hdr.valueLen)];
      }
      GetReadsLong(cfg, dev.media, lba, len, sectors);
      bytes := value[..Min(len, hdr.valueLen)];
    }

    /** kv_get with read_exact off. Values kept beside a header end in its sector, as those do
        that puts write. */
    method Get(id: KeyId, len: nat, now: nat) returns (res: GetResult)
      requires Valid() && id.key != [] && PairsFit(cfg, dev.media, id)
      ensures res == if len == 0 || len > MAX_VALUE_SIZE || len % cfg.caps.sectorSize != 0 then GetFailed(InvalidInput)
                     else GetOf(cfg, dev.media, id, len, now)
    {
      if len == 0 || len > MAX_VALUE_SIZE || len % cfg.caps.sectorSize != 0 {
        return GetFailed(InvalidInput);
      }
      var i := ReadMedia(id);
      if i == MAX_COLLISION {
        return GetFailed(ObjectNotFound);
      }
      var lba := Probe(cfg, id, i);
      assert HoldsAt(dev.media, lba, id);
      var hdr := DecodeHeader(dev.media[lba]);
      if Expired(cfg, hdr, now) {
        return GetFailed(ObjectNotFound);
      }
      var bytes := ReadValue(lba, hdr, len);
      return Got(bytes, hdr.valueLen, hdr.expiry, hdr.genCount);
    }

    /** kv_exists: the window check, then the header comparison. */
    method Exists(id: KeyId, now: nat) returns (found: bool)
      requires Valid() && id.key != []
      ensures found <==> var l := Lookup(cfg, dev.media, id);
                         l.Some? && !(!cfg.expiryMode.DisableExpiry? && now > l.value.expiry && l.value.expiry != 0)
    {
      var init, lba := FirstAddress(id);
      var hashItr := 1;
      while hashItr <= MAX_COLLISION
        invariant 1 <= hashItr <= MAX_COLLISION + 1
        invariant lba == Probe(cfg, id, hashItr - 1)
        invariant FindFrom(cfg, dev.media, id, 0) == FindFrom(cfg, dev.media, id, hashItr - 1)
      {
        if RangeFound(dev.media, lba, SlotSize(cfg)) {
          var buf := ReadSector(cfg, dev.media, lba);
          ZerosHoldNothing(cfg, dev.media, lba, id);
          if HoldsKey(buf, id.key, id.pool) {
            return !Expired(cfg, DecodeHeader(buf), now);
          }
        }
        lba := NextAddress(id, init, hashItr);
        hashItr := hashItr + 1;
      }
      found := false;
    }

    /** kv_delete: an absent key is success; otherwise the slot's sectors are trimmed. */
    method Delete(id: KeyId) returns (ok: bool)
      requires Valid() && id.key != []
      modifies dev
      ensures ok ==> dev.media == AfterDelete(cfg, old(dev.media), id)
      ensures !ok ==> FindFrom(cfg, old(dev.media), id, 0) < MAX_COLLISION
                      && PartlyApplied(old(dev.media),
                                       TrimChunks(SlotSize(cfg), Probe(cfg, id, FindFrom(cfg, old(dev.media), id, 0)),
                                                  dev.maxTrim),
                                       dev.media)
    {
      var i := ReadMedia(id);
      if i == MAX_COLLISION {
        return true;
      }
      ok := dev.DeleteRange(Probe(cfg, id, i), SlotSize(cfg));
    }
  }

  lemma WritesFitPlan(caps: Capabilities, r: Request, plan: WritePlan)
    requires ValidRequest(caps, r) && PlanWrite(caps, |r.key|, r.valueLen, r.aligned) == Planned(plan)
    ensures 1 <= plan.iovCount <= caps.maxIovs
  {
    CeilDivBounds(r.valueLen, caps.sectorSize);
    CeilDivBounds(ValueSectors(caps, r.valueLen), caps.maxWrite);
    var sum := if SpansSectors(caps, |r.key|, r.valueLen) && !r.aligned then caps.sectorSize + r.valueLen
               else HEADER_SIZE + |r.key| + r.valueLen;
    CeilDivBounds(sum, caps.sectorSize);
    CeilDivBounds(CeilDiv(sum, caps.sectorSize), caps.maxWrite);
  }

  /** A pair starts at lba, and a value it keeps beside its header ends in that sector. */
  predicate FitsSector(cfg: StoreConfig, m: Media<Sector>, lba: nat) {
    lba in m && |m[lba]| >= HEADER_SIZE
    && (HeaderAt(m, lba).valueOffset < cfg.caps.sectorSize ==>
          HeaderAt(m, lba).valueOffset + HeaderAt(m, lba).valueLen <= cfg.caps.sectorSize)
  }

  /** At every address that holds the key. */
  predicate PairsFit(cfg: StoreConfig, m: Media<Sector>, id: KeyId)
    requires ValidConfig(cfg)
  {
    forall i: nat :: i < MAX_COLLISION && HoldsAt(m, Probe(cfg, id, i), id) ==> FitsSector(cfg, m, Probe(cfg, id, i))
  }

  /** In a run's media they do. */
  lemma SessionPairsFit(cfg: StoreConfig, m: Media<Sector>, poolHash: nat, id: KeyId)
    requires Session(cfg, m, poolHash) && InRun(cfg, poolHash, id)
    ensures PairsFit(cfg, m, id)
  {
    forall i: nat | i < MAX_COLLISION && HoldsAt(m, Probe(cfg, id, i), id)
      ensures FitsSector(cfg, m, Probe(cfg, id, i))
    {
      ProbeIsHead(cfg, id, poolHash, i);
      assert FitsSlot(cfg, HeaderAt(m, Probe(cfg, id, i)), poolHash);
    }
  }

  lemma WholeSectors(len: nat, size: nat)
    requires size > 0 && len > 0 && len % size == 0
    ensures len == (len / size) * size && len >= size
  {
    assert len == (len / size) * size + len % size;
    MultipleIsFar(len / size, size);
  }

  lemma ReadLength(cfg: StoreConfig, m: Media<Sector>, lba: nat, len: nat, sectors: nat)
    requires ValidConfig(cfg) && Sized(cfg, m) && len == sectors * cfg.caps.sectorSize
    ensures |Flatten(ReadSectors(cfg, m, lba, sectors))| == len
  {
    var s := ReadSectors(cfg, m, lba, sectors);
    assert forall i | 0 <= i < sectors :: s[i] == ReadSector(cfg, m, lba + i);
    FlattenLength(s, cfg.caps.sectorSize);
  }

  /** A value stored beside its header is returned from there, over what was read. */
  lemma GetReadsShort(cfg: StoreConfig, m: Media<Sector>, lba: nat, len: nat, read: seq<Byte>)
    requires ValidConfig(cfg) && Sized(cfg, m) && FitsSector(cfg, m, lba)
    requires HeaderAt(m, lba).valueOffset < cfg.caps.sectorSize <= len == |read|
    ensures var h := HeaderAt(m, lba);
            h.valueOffset + h.valueLen <= |m[lba]| && h.valueLen <= len
            && Overwrite(read, 0, m[lba][h.valueOffset..h.valueOffset + h.valueLen])[..Min(len, h.valueLen)]
               == Take(ValueAt(cfg, m, lba), Min(len, h.valueLen))
  {
    var h := HeaderAt(m, lba);
    OverwriteTakes(read, m[lba], h.valueOffset, h.valueLen);
  }

  /** Reading more sectors than stored, or fewer, does not change the bytes returned. */
  lemma GetReadsLong(cfg: StoreConfig, m: Media<Sector>, lba: nat, len: nat, sectors: nat)
    requires ValidConfig(cfg) && Sized(cfg, m) && FitsSector(cfg, m, lba)
    requires HeaderAt(m, lba).valueOffset >= cfg.caps.sectorSize && len == sectors * cfg.caps.sectorSize
    ensures var h, read := HeaderAt(m, lba), Flatten(ReadSectors(cfg, m, lba + 1, sectors));
            |read| == len && read[..Min(len, h.valueLen)] == Take(ValueAt(cfg, m, lba), Min(len, h.valueLen))
  {
    var h := HeaderAt(m, lba);
    CeilDivBounds(h.valueLen, cfg.caps.sectorSize);
    ReadPrefix(cfg, m, lba + 1, sectors, ValueSectors(cfg.caps, h.valueLen), Min(len, h.valueLen));
  }

  lemma JoinSlices(a: seq<Iov<Sector>>, i: nat, j: nat)
    requires i <= j <= |a|
    ensures a[..j] == a[..i] + a[i..j]
  {
  }

  lemma Regrouped(a: seq<Iov<Sector>>, v: Iov<Sector>, b: seq<Iov<Sector>>)
    ensures (a + [v]) + b == a + ([v] + b)
  {
  }

  lemma OverwriteTakes(read: seq<Byte>, sector: seq<Byte>, at: nat, n: nat)
    requires at + n <= |sector| && n <= |read|
    ensures Overwrite(read, 0, sector[at..at + n])[..n] == Take(sector[at..at + n], n)
  {
  }
}
