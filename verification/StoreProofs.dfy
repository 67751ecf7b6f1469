/** Every put and delete keeps the sector map well formed and leaves the other keys' pairs
    alone; a put that writes its pair whole is what the key denotes afterwards. */
module StoreProofs {
  import opened Bits
  import opened HashFunc
  import opened Record
  import opened IoVectors
  import opened PutVectors
  import opened StoreSpec

  /** The pair a header announces lies between its slot's pool-hash offset and the slot's end. */
  predicate FitsSlot(cfg: StoreConfig, h: Header, poolHash: nat)
    requires Usable(cfg.caps)
  {
    if h.valueOffset < cfg.caps.sectorSize then h.valueOffset + h.valueLen <= cfg.caps.sectorSize
    else h.valueOffset == cfg.caps.sectorSize
         && poolHash + 1 + ValueSectors(cfg.caps, h.valueLen) <= SlotSize(cfg)
  }

  /** Where the pair whose slot contains sector x starts. */
  function HeadOf(x: nat, slot: nat, poolHash: nat): nat
    requires slot > 0
  {
    (x / slot) * slot + poolHash
  }

  /** User data is made of pairs of one pool hash: a mapped sector lies at or after its slot's
      mapped first sector, and every first sector announces a pair that fits. */
  ghost predicate Inv(cfg: StoreConfig, m: Media<Sector>, poolHash: nat)
    requires ValidConfig(cfg)
  {
    && Sized(cfg, m)
    && (forall x :: x in m && x >= cfg.dataStart ==>
         HeadOf(x, SlotSize(cfg), poolHash) <= x && HeadOf(x, SlotSize(cfg), poolHash) in m)
    && (forall x :: x in m && x >= cfg.dataStart && x % SlotSize(cfg) == poolHash ==>
         FitsSlot(cfg, HeaderAt(m, x), poolHash))
  }

  ghost predicate Session(cfg: StoreConfig, m: Media<Sector>, poolHash: nat) {
    ValidConfig(cfg) && RoomForPairs(cfg, poolHash) && Inv(cfg, m, poolHash)
  }

  // ---- Slot arithmetic ---------------------------------------------------------------

  lemma FarApart(a: nat, b: nat, slot: nat)
    requires slot > 0 && a % slot == b % slot && a < b
    ensures a + slot <= b
  {
    var k := b / slot - a / slot;
    assert b - a == k * slot;
    MultipleIsFar(k, slot);
  }

  lemma HeadOfInside(x: nat, head: nat, slot: nat, poolHash: nat)
    requires poolHash < slot && head % slot == poolHash && head <= x < head + (slot - poolHash)
    ensures HeadOf(x, slot, poolHash) == head
  {
    var q := head / slot;
    assert head == q * slot + poolHash;
    DivModUnique(x, slot, q, x - q * slot);
  }

  lemma HeadOfIsHead(x: nat, slot: nat, poolHash: nat)
    requires poolHash < slot
    ensures HeadOf(x, slot, poolHash) % slot == poolHash
    ensures HeadOf(x, slot, poolHash) <= x ==> x < HeadOf(x, slot, poolHash) + (slot - poolHash)
    ensures x < HeadOf(x, slot, poolHash) + slot
  {
    AddToMultiple(x / slot, poolHash, slot);
    assert x == (x / slot) * slot + x % slot;
  }

  lemma ProbeIsHead(cfg: StoreConfig, id: KeyId, poolHash: nat, i: nat)
    requires ValidConfig(cfg) && RoomForPairs(cfg, poolHash) && InRun(cfg, poolHash, id) && i < MAX_COLLISION
    ensures Probe(cfg, id, i) % SlotSize(cfg) == poolHash && Probe(cfg, id, i) >= cfg.dataStart
  {
    ProbeLbaIs(cfg.hash, cfg.keyBits, cfg.valueBits, id.key, id.pool, poolHash, i);
  }

  /** In a run of one pool hash the window a put examines is mapped iff its first sector is. */
  lemma WindowIsItsHead(cfg: StoreConfig, m: Media<Sector>, poolHash: nat, lba: nat)
    requires Session(cfg, m, poolHash) && lba % SlotSize(cfg) == poolHash && lba >= cfg.dataStart
    ensures RangeFound(m, lba, SlotSize(cfg)) <==> lba in m
  {
    var slot := SlotSize(cfg);
    if RangeFound(m, lba, slot) {
      var x :| lba <= x < lba + slot && x in m;
      var head := HeadOf(x, slot, poolHash);
      HeadOfIsHead(x, slot, poolHash);
      if head < lba {
        FarApart(head, lba, slot);
      } else if lba < head {
        FarApart(lba, head, slot);
      }
    }
  }

  // ---- What a batch leaves alone -----------------------------------------------------

  predicate Within(v: Iov<Sector>, lba: nat, n: nat) {
    lba <= v.lba && v.lba + v.Length() <= lba + n
  }

  predicate AllWithin(vs: seq<Iov<Sector>>, lba: nat, n: nat) {
    forall i :: 0 <= i < |vs| ==> Within(vs[i], lba, n)
  }

  ghost predicate SameOutside(m: Media<Sector>, m': Media<Sector>, lba: nat, n: nat) {
    forall x :: x < lba || lba + n <= x ==> (x in m <==> x in m') && (x in m && x in m' ==> m[x] == m'[x])
  }

  lemma {:induction false} ApplyAllIsLocal(m: Media<Sector>, vs: seq<Iov<Sector>>, lba: nat, n: nat)
    requires AllWithin(vs, lba, n)
    ensures SameOutside(m, ApplyAll(m, vs), lba, n)
    decreases |vs|
  {
    if vs != [] {
      ApplyAllIsLocal(Apply(m, vs[0]), vs[1..], lba, n);
      assert Within(vs[0], lba, n);
      assert SameOutside(m, Apply(m, vs[0]), lba, n);
    }
  }

  predicate SizedVectors(cfg: StoreConfig, vs: seq<Iov<Sector>>) {
    forall i, j :: 0 <= i < |vs| && vs[i].Write? && 0 <= j < |vs[i].data| ==> |vs[i].data[j]| == cfg.caps.sectorSize
  }

  lemma {:induction false} ApplyAllKeepsSize(cfg: StoreConfig, m: Media<Sector>, vs: seq<Iov<Sector>>)
    requires Sized(cfg, m) && SizedVectors(cfg, vs)
    ensures Sized(cfg, ApplyAll(m, vs))
    decreases |vs|
  {
    if vs != [] {
      assert Sized(cfg, Apply(m, vs[0])) by {
        forall x | x in Apply(m, vs[0]) ensures |Apply(m, vs[0])[x]| == cfg.caps.sectorSize {
          if vs[0].Write? && vs[0].Touches(x) {
            assert Apply(m, vs[0])[x] == vs[0].data[x - vs[0].lba];
          }
        }
      }
      ApplyAllKeepsSize(cfg, Apply(m, vs[0]), vs[1..]);
    }
  }

  lemma {:induction false} ChunksWithin(cfg: StoreConfig, data: seq<Sector>, lba: nat, limit: nat)
    requires limit > 0
    ensures AllWithin(Chunks(data, lba, limit), lba, |data|)
    ensures (forall j | 0 <= j < |data| :: |data[j]| == cfg.caps.sectorSize) ==>
              SizedVectors(cfg, Chunks(data, lba, limit))
    decreases |data|
  {
    if data != [] {
      var n := Min(|data|, limit);
      ChunksWithin(cfg, data[n..], lba + limit, limit);
      var rest := Chunks(data[n..], lba + limit, limit);
      forall i | 0 <= i < |Chunks(data, lba, limit)|
        ensures Within(Chunks(data, lba, limit)[i], lba, |data|)
      {
        if i > 0 {
          assert Chunks(data, lba, limit)[i] == rest[i - 1];
          assert Within(rest[i - 1], lba + limit, |data[n..]|);
        }
      }
      if forall j | 0 <= j < |data| :: |data[j]| == cfg.caps.sectorSize {
        assert SizedVectors(cfg, rest);
        forall i, j | 0 <= i < |Chunks(data, lba, limit)| && Chunks(data, lba, limit)[i].Write?
                      && 0 <= j < |Chunks(data, lba, limit)[i].data|
          ensures |Chunks(data, lba, limit)[i].data[j]| == cfg.caps.sectorSize
        {
          if i > 0 {
            assert Chunks(data, lba, limit)[i] == rest[i - 1];
          }
        }
      }
    }
  }

  /** The write vectors are the head sector's followed by vectors beyond it. */
  lemma WriteVectorsShape(cfg: StoreConfig, r: Request, plan: WritePlan, lba: nat) returns (rest: seq<Iov<Sector>>)
    requires ValidConfig(cfg) && ValidRequest(cfg.caps, r)
    requires PlanWrite(cfg.caps, |r.key|, r.valueLen, r.aligned) == Planned(plan)
    ensures WriteVectors(cfg.caps, r, plan, lba) == [Write([HeadSector(cfg.caps, r, plan)], lba)] + rest
    ensures AllWithin(rest, lba + 1, |r.memory|) && SizedVectors(cfg, rest) && plan.iovCount > 0
  {
    var head := [HeadSector(cfg.caps, r, plan)];
    FilledVectorsAreCounted(cfg.caps, r, plan, lba);
    ChunksWithin(cfg, r.memory, lba + 1, cfg.caps.maxWrite);
    CeilDivBounds(1 + |r.memory|, cfg.caps.maxWrite);
    if plan.userBuffer {
      rest := Chunks(r.memory, lba + 1, cfg.caps.maxWrite);
    } else {
      rest := [];
      var n := Min(1, cfg.caps.maxWrite);
      assert n == 1 && head[..1] == head && head[1..] == [];
      assert Chunks(head, lba, cfg.caps.maxWrite)
             == [Write(head, lba)] + Chunks(head[1..], lba + cfg.caps.maxWrite, cfg.caps.maxWrite);
    }
  }

  /** A prefix of trim, head write and later writes: the first sector holds the head once its
      write is reached, and is untouched before. */
  lemma HeadAfterPrefix(m: Media<Sector>, trim: seq<Iov<Sector>>, head: Sector, rest: seq<Iov<Sector>>,
                        lba: nat, n: nat, k: nat)
    requires AllWithin(trim, lba + 1, n) && AllWithin(rest, lba + 1, n)
    requires k <= |trim| + 1 + |rest|
    ensures var m' := ApplyAll(m, (trim + ([Write([head], lba)] + rest))[..k]);
            if k > |trim| then lba in m' && m'[lba] == head
            else (lba in m' <==> lba in m) && (lba in m ==> lba in m' && m'[lba] == m[lba])
  {
    var all := trim + ([Write([head], lba)] + rest);
    if k <= |trim| {
      assert all[..k] == trim[..k];
      ApplyAllIsLocal(m, trim[..k], lba + 1, n);
    } else {
      var tail := rest[..k - |trim| - 1];
      assert all[..k] == trim + ([Write([head], lba)] + tail);
      ApplyAllAppend(m, trim, [Write([head], lba)] + tail);
      var m1 := ApplyAll(m, trim);
      ApplyAllCons(m1, Write([head], lba), tail);
      ApplyAllIsLocal(WriteRange(m1, lba, [head]), tail, lba + 1, n);
    }
  }

  // ---- The head sector ---------------------------------------------------------------

  /** The head sector a put writes is found under its key only, and announces its value. */
  lemma HeadSectorHolds(cfg: StoreConfig, r: Request, plan: WritePlan, id: KeyId)
    requires ValidConfig(cfg) && ValidRequest(cfg.caps, r)
    requires PlanWrite(cfg.caps, |r.key|, r.valueLen, r.aligned) == Planned(plan)
    ensures var s := HeadSector(cfg.caps, r, plan);
            DecodeHeader(s) == RequestHeader(r, plan) && (HoldsKey(s, id.key, id.pool) <==> id == IdOf(r))
  {
    StampedHolds(RequestHeader(r, plan), r.key, r.stale, id.key, id.pool);
    if !SpansSectors(cfg.caps, |r.key|, r.valueLen) {
      OneSectorValue(cfg.caps, r);
      var stamped := Stamped(RequestHeader(r, plan), r.key, r.stale);
      var at := HEADER_SIZE + |r.key|;
      var s := HeadSector(cfg.caps, r, plan);
      assert s[..at] == stamped[..at];
      SamePrefix(s, stamped, at, r, id);
    }
  }

  lemma SamePrefix(s: seq<Byte>, t: seq<Byte>, at: nat, r: Request, id: KeyId)
    requires |s| == |t| && at <= |s| && s[..at] == t[..at] && at == HEADER_SIZE + |r.key|
    requires DecodeHeader(t).keyLen == |r.key|
    ensures DecodeHeader(s) == DecodeHeader(t)
    ensures HoldsKey(s, id.key, id.pool) <==> HoldsKey(t, id.key, id.pool)
  {
    assert forall j | 0 <= j < at :: s[j] == s[..at][j] == t[..at][j] == t[j];
    assert DecodeHeader(s) == DecodeHeader(t);
    assert s[HEADER_SIZE..at] == t[HEADER_SIZE..at];
  }

  lemma NewPairFits(cfg: StoreConfig, r: Request, plan: WritePlan, poolHash: nat)
    requires ValidConfig(cfg) && RoomForPairs(cfg, poolHash) && ValidRequest(cfg.caps, r)
    requires PlanWrite(cfg.caps, |r.key|, r.valueLen, r.aligned) == Planned(plan)
    ensures FitsSlot(cfg, RequestHeader(r, plan), poolHash)
    ensures poolHash + 1 + |r.memory| <= SlotSize(cfg)
  {
    CeilDivMonotone(r.valueLen, MAX_VALUE_SIZE, cfg.caps.sectorSize);
  }

  lemma CeilDivMonotone(a: nat, b: nat, d: nat)
    requires d > 0 && a <= b
    ensures CeilDiv(a, d) <= CeilDiv(b, d)
  {
    CeilDivBounds(a, d);
    CeilDivBounds(b, d);
    var k := CeilDiv(a, d) - CeilDiv(b, d);
    assert k * d == CeilDiv(a, d) * d - CeilDiv(b, d) * d;
    MultipleIsFar(k, d);
  }

  // ---- Put -----------------------------------------------------------------------------

  /** Where the probe loop stops: at the first address that is unmapped or holds the key. */
  function StopFrom(cfg: StoreConfig, m: Media<Sector>, id: KeyId, i: nat): (r: nat)
    requires ValidConfig(cfg) && i <= MAX_COLLISION
    ensures i <= r <= MAX_COLLISION
    ensures forall j :: i <= j < r ==> Probe(cfg, id, j) in m && !HoldsAt(m, Probe(cfg, id, j), id)
    ensures r < MAX_COLLISION ==> Probe(cfg, id, r) !in m || HoldsAt(m, Probe(cfg, id, r), id)
    decreases MAX_COLLISION - i
  {
    if i == MAX_COLLISION || Probe(cfg, id, i) !in m || HoldsAt(m, Probe(cfg, id, i), id) then i
    else StopFrom(cfg, m, id, i + 1)
  }

  /** The choice made at the stopping address. */
  function ChoiceAt(cfg: StoreConfig, m: Media<Sector>, id: KeyId, valueLen: nat, replace: bool, now: nat,
                    r: nat): Choice
    requires ValidConfig(cfg) && r <= MAX_COLLISION
  {
    if r == MAX_COLLISION then NoRoom
    else if !HoldsAt(m, Probe(cfg, id, r), id) then Fresh(r)
    else
      var h := HeaderAt(m, Probe(cfg, id, r));
      if Expired(cfg, h, now) then Reuse(r, 0)
      else if replace then Reuse(r, if h.valueLen > valueLen then h.valueLen else 0)
      else AlreadyThere(r)
  }

  ghost predicate WindowsExact(cfg: StoreConfig, m: Media<Sector>, id: KeyId)
    requires ValidConfig(cfg)
  {
    forall j: nat :: j < MAX_COLLISION ==> (RangeFound(m, Probe(cfg, id, j), SlotSize(cfg)) <==> Probe(cfg, id, j) in m)
  }

  lemma WindowsAreExact(cfg: StoreConfig, m: Media<Sector>, poolHash: nat, id: KeyId)
    requires Session(cfg, m, poolHash) && InRun(cfg, poolHash, id)
    ensures WindowsExact(cfg, m, id)
  {
    forall j: nat | j < MAX_COLLISION
      ensures RangeFound(m, Probe(cfg, id, j), SlotSize(cfg)) <==> Probe(cfg, id, j) in m
    {
      ProbeIsHead(cfg, id, poolHash, j);
      WindowIsItsHead(cfg, m, poolHash, Probe(cfg, id, j));
    }
  }

  lemma {:induction false} ChooseStopsFrom(cfg: StoreConfig, m: Media<Sector>, id: KeyId, valueLen: nat,
                                           replace: bool, now: nat, i: nat)
    requires ValidConfig(cfg) && WindowsExact(cfg, m, id) && i <= MAX_COLLISION
    ensures Choose(cfg, m, id, valueLen, replace, now, i)
            == ChoiceAt(cfg, m, id, valueLen, replace, now, StopFrom(cfg, m, id, i))
    decreases MAX_COLLISION - i
  {
    if i < MAX_COLLISION && Probe(cfg, id, i) in m && !HoldsAt(m, Probe(cfg, id, i), id) {
      ChooseStopsFrom(cfg, m, id, valueLen, replace, now, i + 1);
    }
  }

  /** The probe loop examines windows of a whole slot; in a run of one pool hash it decides as
      if it looked at the eight addresses alone. */
  lemma ChooseStops(cfg: StoreConfig, m: Media<Sector>, poolHash: nat, id: KeyId, valueLen: nat, replace: bool,
                    now: nat)
    requires Session(cfg, m, poolHash) && InRun(cfg, poolHash, id)
    ensures Choose(cfg, m, id, valueLen, replace, now, 0)
            == ChoiceAt(cfg, m, id, valueLen, replace, now, StopFrom(cfg, m, id, 0))
  {
    WindowsAreExact(cfg, m, poolHash, id);
    ChooseStopsFrom(cfg, m, id, valueLen, replace, now, 0);
  }

  /** Where an issued put writes, and why. */
  lemma IssuePlace(cfg: StoreConfig, m: Media<Sector>, poolHash: nat, r: Request, replace: bool, now: nat)
    returns (i: nat)
    requires Session(cfg, m, poolHash) && ValidRequest(cfg.caps, r) && InRun(cfg, poolHash, IdOf(r))
    requires DecidePut(cfg, m, r, replace, now).Issue?
    ensures i == StopFrom(cfg, m, IdOf(r), 0) < MAX_COLLISION
    ensures var d := DecidePut(cfg, m, r, replace, now);
            d.lba == Probe(cfg, IdOf(r), i) && d.lba % SlotSize(cfg) == poolHash && d.lba >= cfg.dataStart
            && (d.lba in m ==> HoldsAt(m, d.lba, IdOf(r)))
  {
    ChooseStops(cfg, m, poolHash, IdOf(r), r.valueLen, replace, now);
    i := StopFrom(cfg, m, IdOf(r), 0);
    IssueAt(cfg, m, r, replace, now, i);
    ProbeIsHead(cfg, IdOf(r), poolHash, i);
  }

  lemma IssueAt(cfg: StoreConfig, m: Media<Sector>, r: Request, replace: bool, now: nat, i: nat)
    requires ValidConfig(cfg) && ValidRequest(cfg.caps, r) && i == StopFrom(cfg, m, IdOf(r), 0)
    requires DecidePut(cfg, m, r, replace, now).Issue?
    requires Choose(cfg, m, IdOf(r), r.valueLen, replace, now, 0)
             == ChoiceAt(cfg, m, IdOf(r), r.valueLen, replace, now, i)
    ensures i < MAX_COLLISION && DecidePut(cfg, m, r, replace, now).lba == Probe(cfg, IdOf(r), i)
    ensures Probe(cfg, IdOf(r), i) in m ==> HoldsAt(m, Probe(cfg, IdOf(r), i), IdOf(r))
  {
  }

  /** A put that goes ahead has all its vectors filled exactly when the value is aligned, or fits
      beside its header, or was counted as no more vectors than are filled. */
  lemma WhenAllFilled(cfg: StoreConfig, m: Media<Sector>, r: Request, replace: bool, now: nat)
    requires ValidConfig(cfg) && ValidRequest(cfg.caps, r)
    ensures var d := DecidePut(cfg, m, r, replace, now);
            d.Issue? ==> |d.trim| <= 1 && (AllFilled(cfg, m, r, replace, now) <==> FilledByPlan(cfg.caps, r, |d.trim|))
  {
    var d := DecidePut(cfg, m, r, replace, now);
    if d.Issue? {
      var plan := PlanWrite(cfg.caps, |r.key|, r.valueLen, r.aligned).plan;
      UnfilledIff(cfg.caps, r, plan, d.lba, d.trim);
    }
  }

  /** What a put that goes ahead does to the media, whatever its vectors: it stays inside its
      own slot, and the slot's first sector is then the key's. */
  ghost predicate PutEffect(cfg: StoreConfig, m: Media<Sector>, m': Media<Sector>, poolHash: nat, lba: nat, id: KeyId)
    requires ValidConfig(cfg) && RoomForPairs(cfg, poolHash)
  {
    && SameOutside(m, m', lba, SlotSize(cfg) - poolHash)
    && Sized(cfg, m')
    && lba in m' && HoldsAt(m', lba, id) && FitsSlot(cfg, HeaderAt(m', lba), poolHash)
  }

  /** An issued put hands the device the vectors of its plan at its address. */
  lemma IssuedIs(cfg: StoreConfig, m: Media<Sector>, r: Request, replace: bool, now: nat)
    requires ValidConfig(cfg) && ValidRequest(cfg.caps, r) && DecidePut(cfg, m, r, replace, now).Issue?
    requires AllFilled(cfg, m, r, replace, now)
    ensures PlanWrite(cfg.caps, |r.key|, r.valueLen, r.aligned).Planned?
    ensures var plan, d := PlanWrite(cfg.caps, |r.key|, r.valueLen, r.aligned).plan, DecidePut(cfg, m, r, replace, now);
            AfterPut(cfg, m, r, replace, now)
            == ApplyAll(m, IssuedVectors(d.trim, WriteVectors(cfg.caps, r, plan, d.lba), plan.iovCount))
  {
  }

  lemma PutHasEffect(cfg: StoreConfig, m: Media<Sector>, poolHash: nat, r: Request, replace: bool, now: nat)
    requires Session(cfg, m, poolHash) && ValidRequest(cfg.caps, r) && InRun(cfg, poolHash, IdOf(r))
    requires DecidePut(cfg, m, r, replace, now).Issue?
    requires AllFilled(cfg, m, r, replace, now)
    ensures PutEffect(cfg, m, AfterPut(cfg, m, r, replace, now), poolHash,
                      DecidePut(cfg, m, r, replace, now).lba, IdOf(r))
  {
    IssuedIs(cfg, m, r, replace, now);
    var plan, d := PlanWrite(cfg.caps, |r.key|, r.valueLen, r.aligned).plan, DecidePut(cfg, m, r, replace, now);
    TrimStaysInside(cfg, m, poolHash, r, replace, now);
    IssuedHasEffect(cfg, m, poolHash, r, plan, d.lba, d.trim);
  }

  lemma IssuedHasEffect(cfg: StoreConfig, m: Media<Sector>, poolHash: nat, r: Request, plan: WritePlan, lba: nat,
                        trim: seq<Iov<Sector>>)
    requires Session(cfg, m, poolHash) && ValidRequest(cfg.caps, r)
    requires PlanWrite(cfg.caps, |r.key|, r.valueLen, r.aligned) == Planned(plan)
    requires AllWithin(trim, lba + 1, SlotSize(cfg) - poolHash - 1) && SizedVectors(cfg, trim) && |trim| <= 1
    requires trim != [] ==> HoldsAt(m, lba, IdOf(r)) && FitsSlot(cfg, HeaderAt(m, lba), poolHash)
    ensures PutEffect(cfg, m, ApplyAll(m, IssuedVectors(trim, WriteVectors(cfg.caps, r, plan, lba), plan.iovCount)),
                      poolHash, lba, IdOf(r))
  {
    var rest := WriteVectorsShape(cfg, r, plan, lba);
    var head := HeadSector(cfg.caps, r, plan);
    var room := SlotSize(cfg) - poolHash - 1;
    NewPairFits(cfg, r, plan, poolHash);
    WithinMore(rest, lba + 1, |r.memory|, room);
    var all := trim + ([Write([head], lba)] + rest);
    var k := Min(plan.iovCount, |all|);
    PrefixIsLocal(cfg, trim, head, rest, lba, room, k);
    ApplyAllIsLocal(m, all[..k], lba, room + 1);
    ApplyAllKeepsSize(cfg, m, all[..k]);
    HeadAfterPrefix(m, trim, head, rest, lba, room, k);
    HeadSectorHolds(cfg, r, plan, IdOf(r));
  }

  lemma WithinMore(vs: seq<Iov<Sector>>, lba: nat, n: nat, n': nat)
    requires AllWithin(vs, lba, n) && n <= n'
    ensures AllWithin(vs, lba, n')
  {
    forall i | 0 <= i < |vs| ensures Within(vs[i], lba, n') {
      assert Within(vs[i], lba, n);
    }
  }

  lemma PrefixIsLocal(cfg: StoreConfig, trim: seq<Iov<Sector>>, head: Sector, rest: seq<Iov<Sector>>,
                      lba: nat, room: nat, k: nat)
    requires AllWithin(trim, lba + 1, room) && AllWithin(rest, lba + 1, room) && k <= |trim| + 1 + |rest|
    requires SizedVectors(cfg, trim) && SizedVectors(cfg, rest) && |head| == cfg.caps.sectorSize
    ensures var vs := (trim + ([Write([head], lba)] + rest))[..k];
            AllWithin(vs, lba, room + 1) && SizedVectors(cfg, vs)
  {
    var vs := (trim + ([Write([head], lba)] + rest))[..k];
    forall i | 0 <= i < |vs|
      ensures Within(vs[i], lba, room + 1)
      ensures forall j | vs[i].Write? && 0 <= j < |vs[i].data| :: |vs[i].data[j]| == cfg.caps.sectorSize
    {
      if i < |trim| {
        assert vs[i] == trim[i] && Within(trim[i], lba + 1, room);
      } else if i > |trim| {
        assert vs[i] == rest[i - |trim| - 1] && Within(rest[i - |trim| - 1], lba + 1, room);
      }
    }
  }

  /** The trim vector is one or none, starts after the pair's first sector and stays in the slot. */
  lemma TrimStaysInside(cfg: StoreConfig, m: Media<Sector>, poolHash: nat, r: Request, replace: bool, now: nat)
    requires Session(cfg, m, poolHash) && ValidRequest(cfg.caps, r) && InRun(cfg, poolHash, IdOf(r))
    requires DecidePut(cfg, m, r, replace, now).Issue?
    ensures var d := DecidePut(cfg, m, r, replace, now);
            && |d.trim| <= 1 && AllWithin(d.trim, d.lba + 1, SlotSize(cfg) - poolHash - 1) && SizedVectors(cfg, d.trim)
            && (d.trim != [] ==> HoldsAt(m, d.lba, IdOf(r)) && FitsSlot(cfg, HeaderAt(m, d.lba), poolHash))
  {
    var d := DecidePut(cfg, m, r, replace, now);
    var i := IssuePlace(cfg, m, poolHash, r, replace, now);
    ChooseStops(cfg, m, poolHash, IdOf(r), r.valueLen, replace, now);
    if d.trim != [] {
      TrimFits(cfg, HeaderAt(m, d.lba), poolHash, r.valueLen);
    }
  }

  lemma TrimFits(cfg: StoreConfig, h: Header, poolHash: nat, valueLen: nat)
    requires Usable(cfg.caps) && FitsSlot(cfg, h, poolHash) && valueLen > 0
    requires ValueSectors(cfg.caps, h.valueLen) > ValueSectors(cfg.caps, valueLen)
    ensures ValueSectors(cfg.caps, valueLen) >= 1
    ensures poolHash + 1 + ValueSectors(cfg.caps, h.valueLen) <= SlotSize(cfg)
  {
    var size := cfg.caps.sectorSize;
    CeilDivBounds(valueLen, size);
    if h.valueOffset < size {
      CeilDivMonotone(h.valueLen, size, size);
      DivModUnique(size + size - 1, size, 1, size - 1);
    }
  }

  lemma EffectKeepsInv(cfg: StoreConfig, m: Media<Sector>, m': Media<Sector>, poolHash: nat, lba: nat, id: KeyId)
    requires Session(cfg, m, poolHash) && PutEffect(cfg, m, m', poolHash, lba, id)
    requires lba % SlotSize(cfg) == poolHash && lba >= cfg.dataStart
    ensures Inv(cfg, m', poolHash)
  {
    var slot := SlotSize(cfg);
    forall x | x in m' && x >= cfg.dataStart
      ensures HeadOf(x, slot, poolHash) <= x && HeadOf(x, slot, poolHash) in m'
      ensures x % slot == poolHash ==> FitsSlot(cfg, HeaderAt(m', x), poolHash)
    {
      if lba <= x < lba + (slot - poolHash) {
        HeadOfInside(x, lba, slot, poolHash);
        if x % slot == poolHash && x > lba {
          FarApart(lba, x, slot);
        }
      } else {
        HeadStaysMapped(m, m', x, lba, slot, poolHash);
      }
    }
  }

  lemma HeadStaysMapped(m: Media<Sector>, m': Media<Sector>, x: nat, lba: nat, slot: nat, poolHash: nat)
    requires poolHash < slot && lba % slot == poolHash && SameOutside(m, m', lba, slot - poolHash) && lba in m'
    requires HeadOf(x, slot, poolHash) in m
    ensures HeadOf(x, slot, poolHash) in m'
  {
    var head := HeadOf(x, slot, poolHash);
    HeadOfIsHead(x, slot, poolHash);
    if lba < head {
      FarApart(lba, head, slot);
    }
  }

  /** Any put, however it ends, keeps the invariant. */
  lemma PutKeepsInv(cfg: StoreConfig, m: Media<Sector>, poolHash: nat, r: Request, replace: bool, now: nat)
    requires Session(cfg, m, poolHash) && ValidRequest(cfg.caps, r) && InRun(cfg, poolHash, IdOf(r))
    requires AllFilled(cfg, m, r, replace, now)
    ensures Inv(cfg, AfterPut(cfg, m, r, replace, now), poolHash)
  {
    var d := DecidePut(cfg, m, r, replace, now);
    if d.Issue? {
      PutHasEffect(cfg, m, poolHash, r, replace, now);
      var i := IssuePlace(cfg, m, poolHash, r, replace, now);
      EffectKeepsInv(cfg, m, AfterPut(cfg, m, r, replace, now), poolHash, d.lba, IdOf(r));
    }
  }

  // ---- Other keys ----------------------------------------------------------------------

  lemma {:induction false} FindFromAgrees(cfg: StoreConfig, m: Media<Sector>, m': Media<Sector>, id: KeyId, i: nat)
    requires ValidConfig(cfg) && i <= MAX_COLLISION
    requires forall j :: 0 <= j < MAX_COLLISION ==>
             (HoldsAt(m, Probe(cfg, id, j), id) <==> HoldsAt(m', Probe(cfg, id, j), id))
    ensures FindFrom(cfg, m', id, i) == FindFrom(cfg, m, id, i)
    decreases MAX_COLLISION - i
  {
    if i < MAX_COLLISION {
      FindFromAgrees(cfg, m, m', id, i + 1);
    }
  }

  lemma ReadsElsewhere(cfg: StoreConfig, m: Media<Sector>, m': Media<Sector>, lba: nat, n: nat, at: nat, k: nat)
    requires SameOutside(m, m', lba, n) && (at + k <= lba || lba + n <= at)
    ensures ReadSectors(cfg, m, at, k) == ReadSectors(cfg, m', at, k)
  {
    var a, b := ReadSectors(cfg, m, at, k), ReadSectors(cfg, m', at, k);
    forall i | 0 <= i < k ensures a[i] == b[i] {
      assert a[i] == ReadSector(cfg, m, at + i) && b[i] == ReadSector(cfg, m', at + i);
    }
  }

  /** A pair at another head reads the same after a change confined to one slot's reach. */
  lemma PairElsewhere(cfg: StoreConfig, m: Media<Sector>, m': Media<Sector>, poolHash: nat, lba: nat, p: nat, n: nat)
    requires Session(cfg, m, poolHash) && Sized(cfg, m')
    requires SameOutside(m, m', lba, n) && n <= SlotSize(cfg)
    requires lba % SlotSize(cfg) == poolHash == p % SlotSize(cfg) && lba != p && p >= cfg.dataStart
    ensures p in m <==> p in m'
    ensures p in m ==> m[p] == m'[p] && PairAt(cfg, m', p) == PairAt(cfg, m, p)
  {
    var slot := SlotSize(cfg);
    if p < lba {
      FarApart(p, lba, slot);
    } else {
      FarApart(lba, p, slot);
    }
    if p in m {
      var h := HeaderAt(m, p);
      if h.valueOffset >= cfg.caps.sectorSize {
        ReadsElsewhere(cfg, m, m', lba, n, p + 1, ValueSectors(cfg.caps, h.valueLen));
      }
    }
  }

  lemma OneKeyPerSector(m: Media<Sector>, lba: nat, a: KeyId, b: KeyId)
    requires HoldsAt(m, lba, a) && HoldsAt(m, lba, b)
    ensures a == b
  {
  }

  /** A put leaves what every other key denotes unchanged. */
  lemma PutFrame(cfg: StoreConfig, m: Media<Sector>, poolHash: nat, r: Request, replace: bool, now: nat, id: KeyId)
    requires Session(cfg, m, poolHash) && ValidRequest(cfg.caps, r) && InRun(cfg, poolHash, IdOf(r))
    requires InRun(cfg, poolHash, id) && id != IdOf(r)
    requires AllFilled(cfg, m, r, replace, now)
    ensures Lookup(cfg, AfterPut(cfg, m, r, replace, now), id) == Lookup(cfg, m, id)
    ensures forall j :: 0 <= j < MAX_COLLISION ==>
              (HoldsAt(m, Probe(cfg, id, j), id) <==> HoldsAt(AfterPut(cfg, m, r, replace, now), Probe(cfg, id, j), id))
  {
    var d := DecidePut(cfg, m, r, replace, now);
    var m' := AfterPut(cfg, m, r, replace, now);
    if d.Issue? {
      PutHasEffect(cfg, m, poolHash, r, replace, now);
      var i := IssuePlace(cfg, m, poolHash, r, replace, now);
      forall j | 0 <= j < MAX_COLLISION
        ensures HoldsAt(m, Probe(cfg, id, j), id) <==> HoldsAt(m', Probe(cfg, id, j), id)
        ensures HoldsAt(m, Probe(cfg, id, j), id) ==>
                  PairAt(cfg, m', Probe(cfg, id, j)) == PairAt(cfg, m, Probe(cfg, id, j))
      {
        var p := Probe(cfg, id, j);
        ProbeIsHead(cfg, id, poolHash, j);
        if p == d.lba {
          if HoldsAt(m', p, id) { OneKeyPerSector(m', p, id, IdOf(r)); }
          if HoldsAt(m, p, id) && HoldsAt(m, p, IdOf(r)) { OneKeyPerSector(m, p, id, IdOf(r)); }
        } else {
          PairElsewhere(cfg, m, m', poolHash, d.lba, p, SlotSize(cfg) - poolHash);
        }
      }
      FindFromAgrees(cfg, m, m', id, 0);
    }
  }

  /** Metadata below the data area is never touched. */
  lemma MetadataUntouched(cfg: StoreConfig, m: Media<Sector>, poolHash: nat, r: Request, replace: bool, now: nat,
                          x: nat)
    requires Session(cfg, m, poolHash) && ValidRequest(cfg.caps, r) && InRun(cfg, poolHash, IdOf(r))
    requires x < cfg.dataStart
    requires AllFilled(cfg, m, r, replace, now)
    ensures x in AfterPut(cfg, m, r, replace, now) <==> x in m
    ensures x in m ==> AfterPut(cfg, m, r, replace, now)[x] == m[x]
  {
    var d := DecidePut(cfg, m, r, replace, now);
    if d.Issue? {
      PutHasEffect(cfg, m, poolHash, r, replace, now);
      var i := IssuePlace(cfg, m, poolHash, r, replace, now);
    }
  }

  // ---- The key itself --------------------------------------------------------------------

  /** A put that neither trims nor stores an unaligned multi-sector value writes its pair whole. */
  predicate WritesPairWhole(cfg: StoreConfig, m: Media<Sector>, r: Request, replace: bool, now: nat): (whole: bool)
    requires ValidConfig(cfg) && ValidRequest(cfg.caps, r)
    ensures whole ==> AllFilled(cfg, m, r, replace, now)
  {
    WhenAllFilled(cfg, m, r, replace, now);
    var d := DecidePut(cfg, m, r, replace, now);
    d.Issue? && d.trim == [] && (r.aligned || !SpansSectors(cfg.caps, |r.key|, r.valueLen))
  }

  /** The value a request asks to store. */
  function RequestValue(r: Request): seq<Byte> {
    Take(Flatten(r.memory), r.valueLen)
  }

  function RequestPair(r: Request): Pair {
    Pair(RequestValue(r), r.valueLen, r.expiry, r.genCount)
  }

  /** After such a put the key denotes exactly the pair that was put. */
  lemma PutThenLookup(cfg: StoreConfig, m: Media<Sector>, poolHash: nat, r: Request, replace: bool, now: nat)
    requires Session(cfg, m, poolHash) && ValidRequest(cfg.caps, r) && InRun(cfg, poolHash, IdOf(r))
    requires WritesPairWhole(cfg, m, r, replace, now)
    ensures Lookup(cfg, AfterPut(cfg, m, r, replace, now), IdOf(r)) == Some(RequestPair(r))
  {
    ghost var m' := AfterPut(cfg, m, r, replace, now);
    var i := PutIsFoundWhereStored(cfg, m, poolHash, r, replace, now);
    IssuedIs(cfg, m, r, replace, now);
    PairReadsBack(cfg, m, r, DecidePut(cfg, m, r, replace, now).lba);
  }

  /** Lookup stops at the address the put wrote, not earlier. */
  lemma PutIsFoundWhereStored(cfg: StoreConfig, m: Media<Sector>, poolHash: nat, r: Request, replace: bool, now: nat)
    returns (i: nat)
    requires Session(cfg, m, poolHash) && ValidRequest(cfg.caps, r) && InRun(cfg, poolHash, IdOf(r))
    requires DecidePut(cfg, m, r, replace, now).Issue?
    requires AllFilled(cfg, m, r, replace, now)
    ensures i < MAX_COLLISION && Probe(cfg, IdOf(r), i) == DecidePut(cfg, m, r, replace, now).lba
    ensures FindFrom(cfg, AfterPut(cfg, m, r, replace, now), IdOf(r), 0) == i
  {
    var d := DecidePut(cfg, m, r, replace, now);
    var m' := AfterPut(cfg, m, r, replace, now);
    i := IssuePlace(cfg, m, poolHash, r, replace, now);
    PutHasEffect(cfg, m, poolHash, r, replace, now);
    forall j | 0 <= j < i ensures !HoldsAt(m', Probe(cfg, IdOf(r), j), IdOf(r)) {
      var p := Probe(cfg, IdOf(r), j);
      ProbeIsHead(cfg, IdOf(r), poolHash, j);
      assert p in m && !HoldsAt(m, p, IdOf(r));
      PairElsewhere(cfg, m, m', poolHash, d.lba, p, SlotSize(cfg) - poolHash);
    }
  }

  /** The image of a pair, laid down, reads back as the pair. */
  lemma PairReadsBack(cfg: StoreConfig, m: Media<Sector>, r: Request, lba: nat)
    requires ValidConfig(cfg) && ValidRequest(cfg.caps, r)
    requires r.aligned || !SpansSectors(cfg.caps, |r.key|, r.valueLen)
    requires PlanWrite(cfg.caps, |r.key|, r.valueLen, r.aligned).Planned?
    ensures var plan := PlanWrite(cfg.caps, |r.key|, r.valueLen, r.aligned).plan;
            var m' := ApplyAll(m, IssuedVectors([], WriteVectors(cfg.caps, r, plan, lba), plan.iovCount));
            lba in m' && |m'[lba]| >= HEADER_SIZE && PairAt(cfg, m', lba) == RequestPair(r)
  {
    var plan := PlanWrite(cfg.caps, |r.key|, r.valueLen, r.aligned).plan;
    IssuedLayDownImage(cfg.caps, r, plan, lba, m);
    var image := PairImage(cfg.caps, r, plan);
    var m' := WriteRange(m, lba, image);
    assert m'[lba] == SectorFor(image, lba, lba) == HeadSector(cfg.caps, r, plan);
    HeadSectorHolds(cfg, r, plan, IdOf(r));
    if SpansSectors(cfg.caps, |r.key|, r.valueLen) {
      MemoryReadsBack(cfg, m, lba, HeadSector(cfg.caps, r, plan), r.memory);
    } else {
      OneSectorValue(cfg.caps, r);
      FlattenOne(r.memory);
      OverwriteReadsBack(Stamped(RequestHeader(r, plan), r.key, r.stale), plan.valueOffset, r.memory[0][..r.valueLen]);
    }
  }

  lemma MemoryReadsBack(cfg: StoreConfig, m: Media<Sector>, lba: nat, head: Sector, memory: seq<Sector>)
    ensures ReadSectors(cfg, WriteRange(m, lba, [head] + memory), lba + 1, |memory|) == memory
  {
    var image := [head] + memory;
    var m' := WriteRange(m, lba, image);
    var read := ReadSectors(cfg, m', lba + 1, |memory|);
    forall i | 0 <= i < |memory| ensures read[i] == memory[i] {
      assert read[i] == ReadSector(cfg, m', lba + 1 + i);
      assert m'[lba + 1 + i] == SectorFor(image, lba, lba + 1 + i) == image[1 + i];
    }
  }

  lemma FlattenOne(ss: seq<Sector>)
    requires |ss| == 1
    ensures Flatten(ss) == ss[0]
  {
    assert ss[1..] == [];
    assert Flatten(ss) == ss[0] + Flatten([]);
  }

  lemma OverwriteReadsBack(buf: seq<Byte>, at: nat, data: seq<Byte>)
    requires at + |data| <= |buf|
    ensures Overwrite(buf, at, data)[at..at + |data|] == data
  {
  }
}
