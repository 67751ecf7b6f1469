/** Keys of different pools in one slot: a delete trims a whole slot's length, and a put over a
    shorter value writes on past it, so both can reach another pool's pair. */
module CrossPool {
  import opened Bits
  import opened HashFunc
  import opened Record
  import opened IoVectors
  import opened PutVectors
  import opened StoreSpec
  import opened StoreProofs
  import opened LiveExtents

  /** The sectors that reading the pair at b needs. */
  function ReadSpan(cfg: StoreConfig, m: Media<Sector>, b: nat): nat
    requires ValidConfig(cfg) && b in m && |m[b]| >= HEADER_SIZE
  {
    var h := HeaderAt(m, b);
    if h.valueOffset < cfg.caps.sectorSize then 1 else 1 + ValueSectors(cfg.caps, h.valueLen)
  }

  /** The key has one pair, at b. */
  predicate StoredAt(cfg: StoreConfig, m: Media<Sector>, id: KeyId, b: nat)
    requires ValidConfig(cfg)
  {
    && HoldsAt(m, b, id) && (exists i :: 0 <= i < MAX_COLLISION && Probe(cfg, id, i) == b)
    && forall i :: 0 <= i < MAX_COLLISION && HoldsAt(m, Probe(cfg, id, i), id) ==> Probe(cfg, id, i) == b
  }

  /** The pair at b does not run into address a, as two disjoint pairs do not. */
  predicate EndsBefore(cfg: StoreConfig, m: Media<Sector>, b: nat, a: nat)
    requires ValidConfig(cfg) && b in m && |m[b]| >= HEADER_SIZE
  {
    b < a ==> b + ReadSpan(cfg, m, b) <= a
  }

  lemma SameAddresses(cfg: StoreConfig, m: Media<Sector>, m': Media<Sector>, a: nat, n: nat, id: KeyId, b: nat)
    requires ValidConfig(cfg) && StoredAt(cfg, m, id, b) && SameOutside(m, m', a, n) && (b < a || a + n <= b)
    requires forall x :: a <= x < a + n ==> !HoldsAt(m', x, id)
    ensures FindFrom(cfg, m', id, 0) == FindFrom(cfg, m, id, 0) < MAX_COLLISION && HoldsAt(m', b, id)
    ensures Probe(cfg, id, FindFrom(cfg, m, id, 0)) == b
  {
    forall i | 0 <= i < MAX_COLLISION
      ensures HoldsAt(m, Probe(cfg, id, i), id) <==> HoldsAt(m', Probe(cfg, id, i), id)
    {
      var p := Probe(cfg, id, i);
      assert HoldsAt(m, p, id) ==> p == b;
    }
    FindFromAgrees(cfg, m, m', id, 0);
  }

  /** A change of n sectors from a on leaves a key whose pair starts elsewhere as it was. */
  lemma ElsewhereKept(cfg: StoreConfig, m: Media<Sector>, m': Media<Sector>, a: nat, n: nat, id: KeyId, b: nat)
    requires ValidConfig(cfg) && StoredAt(cfg, m, id, b) && EndsBefore(cfg, m, b, a)
    requires SameOutside(m, m', a, n) && (b < a || a + n <= b)
    requires forall x :: a <= x < a + n ==> !HoldsAt(m', x, id)
    ensures Lookup(cfg, m', id) == Lookup(cfg, m, id)
  {
    SameAddresses(cfg, m, m', a, n, id, b);
    SamePair(cfg, m, m', a, n, b);
  }

  lemma SamePair(cfg: StoreConfig, m: Media<Sector>, m': Media<Sector>, a: nat, n: nat, b: nat)
    requires ValidConfig(cfg) && b in m && |m[b]| >= HEADER_SIZE && EndsBefore(cfg, m, b, a)
    requires SameOutside(m, m', a, n) && (b < a || a + n <= b)
    ensures b in m' && m'[b] == m[b] && PairAt(cfg, m', b) == PairAt(cfg, m, b)
  {
    var h := HeaderAt(m, b);
    if h.valueOffset >= cfg.caps.sectorSize {
      ReadsElsewhere(cfg, m, m', a, n, b + 1, ValueSectors(cfg.caps, h.valueLen));
    }
  }

  /** A key whose only pair is gone denotes nothing. */
  lemma GoneIsNone(cfg: StoreConfig, m: Media<Sector>, m': Media<Sector>, a: nat, n: nat, id: KeyId, b: nat)
    requires ValidConfig(cfg) && StoredAt(cfg, m, id, b) && SameOutside(m, m', a, n) && a <= b < a + n
    requires forall x :: a <= x < a + n ==> !HoldsAt(m', x, id)
    ensures Lookup(cfg, m, id) != None && Lookup(cfg, m', id) == None
  {
    forall i | 0 <= i < MAX_COLLISION ensures !HoldsAt(m', Probe(cfg, id, i), id) {
      var p := Probe(cfg, id, i);
      assert HoldsAt(m, p, id) ==> p == b;
    }
  }

  /** Deleting the key found at a leaves another key, of any pool, as it was exactly when that
      one's pair does not start within the slot's length from a that is trimmed. */
  lemma DeleteSparesIff(cfg: StoreConfig, m: Media<Sector>, id: KeyId, other: KeyId, b: nat)
    requires ValidConfig(cfg) && FindFrom(cfg, m, id, 0) < MAX_COLLISION && id != other
    requires StoredAt(cfg, m, other, b) && EndsBefore(cfg, m, b, Probe(cfg, id, FindFrom(cfg, m, id, 0)))
    ensures var a, m' := Probe(cfg, id, FindFrom(cfg, m, id, 0)), AfterDelete(cfg, m, id);
            && (Lookup(cfg, m', other) == Lookup(cfg, m, other) <==> !(a < b < a + SlotSize(cfg)))
            && (a < b < a + SlotSize(cfg) ==> Lookup(cfg, m', other) == None)
  {
    var a, m' := Probe(cfg, id, FindFrom(cfg, m, id, 0)), AfterDelete(cfg, m, id);
    if a == b {
      OneKeyPerSector(m, a, id, other);
    }
    if a < b < a + SlotSize(cfg) {
      GoneIsNone(cfg, m, m', a, SlotSize(cfg), other, b);
    } else {
      ElsewhereKept(cfg, m, m', a, SlotSize(cfg), other, b);
    }
  }

  // ---- Puts --------------------------------------------------------------------------------

  /** The address a put takes is unmapped or holds its key. */
  lemma AddressIsOwn(cfg: StoreConfig, m: Media<Sector>, r: Request, replace: bool, now: nat)
    requires ValidConfig(cfg) && ValidRequest(cfg.caps, r) && DecidePut(cfg, m, r, replace, now).Issue?
    ensures var a := DecidePut(cfg, m, r, replace, now).lba; a !in m || HoldsAt(m, a, IdOf(r))
  {
    ChoiceIsOwn(cfg, m, IdOf(r), r.valueLen, replace, now, 0);
  }

  lemma {:induction false} ChoiceIsOwn(cfg: StoreConfig, m: Media<Sector>, id: KeyId, valueLen: nat, replace: bool,
                                       now: nat, i: nat)
    requires ValidConfig(cfg) && i <= MAX_COLLISION
    ensures var c := Choose(cfg, m, id, valueLen, replace, now, i);
            && (c.Fresh? ==> Probe(cfg, id, c.i) !in m)
            && (c.Reuse? ==> HoldsAt(m, Probe(cfg, id, c.i), id))
    decreases MAX_COLLISION - i
  {
    if i < MAX_COLLISION {
      var p := Probe(cfg, id, i);
      assert p in m ==> RangeFound(m, p, SlotSize(cfg));
      ChoiceIsOwn(cfg, m, id, valueLen, replace, now, i + 1);
    }
  }

  /** Some sector of the request's value reads as the first sector of a pair of the key. */
  predicate Mimics(r: Request, id: KeyId) {
    exists k :: 0 <= k < |r.memory| && |r.memory[k]| >= HEADER_SIZE && HoldsKey(r.memory[k], id.key, id.pool)
  }

  /** A whole put lays its image down. */
  lemma WholePutIs(cfg: StoreConfig, m: Media<Sector>, r: Request, replace: bool, now: nat)
    requires ValidConfig(cfg) && ValidRequest(cfg.caps, r) && WritesPairWhole(cfg, m, r, replace, now)
    ensures PlanWrite(cfg.caps, |r.key|, r.valueLen, r.aligned).Planned?
    ensures AfterPut(cfg, m, r, replace, now)
            == WriteRange(m, DecidePut(cfg, m, r, replace, now).lba,
                          PairImage(cfg.caps, r, PlanWrite(cfg.caps, |r.key|, r.valueLen, r.aligned).plan))
  {
    IssuedIs(cfg, m, r, replace, now);
    IssuedLayDownImage(cfg.caps, r, PlanWrite(cfg.caps, |r.key|, r.valueLen, r.aligned).plan,
                       DecidePut(cfg, m, r, replace, now).lba, m);
  }

  lemma ImageSector(m: Media<Sector>, a: nat, image: seq<Sector>, x: nat, id: KeyId)
    requires a <= x < a + |image|
    ensures HoldsAt(WriteRange(m, a, image), x, id) <==>
            |image[x - a]| >= HEADER_SIZE && HoldsKey(image[x - a], id.key, id.pool)
  {
    assert WriteRange(m, a, image)[x] == image[x - a];
  }

  lemma ImageHolds(cfg: StoreConfig, m: Media<Sector>, r: Request, plan: WritePlan, a: nat, other: KeyId)
    requires ValidConfig(cfg) && ValidRequest(cfg.caps, r) && other != IdOf(r) && !Mimics(r, other)
    requires PlanWrite(cfg.caps, |r.key|, r.valueLen, r.aligned) == Planned(plan)
    ensures forall x :: a <= x < a + Footprint(cfg, r) ==>
              !HoldsAt(WriteRange(m, a, PairImage(cfg.caps, r, plan)), x, other)
  {
    var image := PairImage(cfg.caps, r, plan);
    HeadSectorHolds(cfg, r, plan, other);
    forall x | a <= x < a + |image| ensures !HoldsAt(WriteRange(m, a, image), x, other) {
      ImageSector(m, a, image, x, other);
      assert x > a ==> image[x - a] == r.memory[x - a - 1];
    }
  }

  /** What a whole put leaves in its footprint holds its own key at the start and, unless the
      value mimics it, no other key after that. */
  lemma FootprintHolds(cfg: StoreConfig, m: Media<Sector>, r: Request, replace: bool, now: nat, other: KeyId)
    requires ValidConfig(cfg) && ValidRequest(cfg.caps, r) && WritesPairWhole(cfg, m, r, replace, now)
    requires other != IdOf(r) && !Mimics(r, other)
    ensures var m', a := AfterPut(cfg, m, r, replace, now), DecidePut(cfg, m, r, replace, now).lba;
            forall x :: a <= x < a + Footprint(cfg, r) ==> !HoldsAt(m', x, other)
  {
    WholePutIs(cfg, m, r, replace, now);
    ImageHolds(cfg, m, r, PlanWrite(cfg.caps, |r.key|, r.valueLen, r.aligned).plan,
               DecidePut(cfg, m, r, replace, now).lba, other);
  }

  /** A whole put at address a, growing over a shorter value or not, leaves another key, of any
      pool, as it was exactly when that one's pair does not start inside the sectors written. */
  lemma PutSparesIff(cfg: StoreConfig, m: Media<Sector>, r: Request, replace: bool, now: nat, other: KeyId, b: nat)
    requires ValidConfig(cfg) && ValidRequest(cfg.caps, r) && WritesPairWhole(cfg, m, r, replace, now)
    requires other != IdOf(r) && !Mimics(r, other)
    requires StoredAt(cfg, m, other, b) && EndsBefore(cfg, m, b, DecidePut(cfg, m, r, replace, now).lba)
    ensures var a, m' := DecidePut(cfg, m, r, replace, now).lba, AfterPut(cfg, m, r, replace, now);
            && (Lookup(cfg, m', other) == Lookup(cfg, m, other) <==> !(a < b < a + Footprint(cfg, r)))
            && (a < b < a + Footprint(cfg, r) ==> Lookup(cfg, m', other) == None)
  {
    var a, m', n := DecidePut(cfg, m, r, replace, now).lba, AfterPut(cfg, m, r, replace, now), Footprint(cfg, r);
    WholePutWritesFootprint(cfg, m, r, replace, now);
    FootprintHolds(cfg, m, r, replace, now, other);
    AddressIsOwn(cfg, m, r, replace, now);
    if a == b {
      OneKeyPerSector(m, a, IdOf(r), other);
    }
    if a < b < a + n {
      GoneIsNone(cfg, m, m', a, n, other, b);
    } else {
      ElsewhereKept(cfg, m, m', a, n, other, b);
    }
  }

  /** A put at a fresh address meets no such pair. */
  lemma FreshPutSpares(cfg: StoreConfig, m: Media<Sector>, r: Request, replace: bool, now: nat, other: KeyId, b: nat)
    requires ValidConfig(cfg) && ValidRequest(cfg.caps, r) && SlotHoldsPair(cfg)
    requires WritesPairWhole(cfg, m, r, replace, now) && TakesFresh(cfg, m, r, replace, now)
    requires other != IdOf(r) && !Mimics(r, other)
    requires StoredAt(cfg, m, other, b) && EndsBefore(cfg, m, b, DecidePut(cfg, m, r, replace, now).lba)
    ensures Lookup(cfg, AfterPut(cfg, m, r, replace, now), other) == Lookup(cfg, m, other)
  {
    FreshAddress(cfg, m, r, replace, now);
    FootprintFits(cfg, r);
    PutSparesIff(cfg, m, r, replace, now, other, b);
  }
}
