/** Puts of any pools on one device: which sectors a put may write, and that the pairs of a
    store never overlap. */
module LiveExtents {
  import opened Bits
  import opened HashFunc
  import opened Record
  import opened IoVectors
  import opened PutVectors
  import opened StoreSpec
  import opened StoreProofs

  /** A slot holds the largest pair. */
  predicate SlotHoldsPair(cfg: StoreConfig)
    requires ValidConfig(cfg)
  {
    1 + ValueSectors(cfg.caps, MAX_VALUE_SIZE) <= SlotSize(cfg)
  }

  /** A probe that the put takes as fresh had nothing mapped in its whole window. */
  lemma {:induction false} FreshWindowUnmapped(cfg: StoreConfig, m: Media<Sector>, id: KeyId, valueLen: nat,
                                               replace: bool, now: nat, i: nat)
    requires ValidConfig(cfg) && i <= MAX_COLLISION
    requires Choose(cfg, m, id, valueLen, replace, now, i).Fresh?
    ensures !RangeFound(m, Probe(cfg, id, Choose(cfg, m, id, valueLen, replace, now, i).i), SlotSize(cfg))
    decreases MAX_COLLISION - i
  {
    if RangeFound(m, Probe(cfg, id, i), SlotSize(cfg)) {
      FreshWindowUnmapped(cfg, m, id, valueLen, replace, now, i + 1);
    }
  }

  function Footprint(cfg: StoreConfig, r: Request): nat
    requires ValidConfig(cfg)
  {
    PairSectors(cfg.caps, |r.key|, r.valueLen)
  }

  /** A put that writes its pair whole changes exactly the sectors of that pair. */
  lemma WholePutWritesFootprint(cfg: StoreConfig, m: Media<Sector>, r: Request, replace: bool, now: nat)
    requires ValidConfig(cfg) && ValidRequest(cfg.caps, r) && WritesPairWhole(cfg, m, r, replace, now)
    ensures var m', lba := AfterPut(cfg, m, r, replace, now), DecidePut(cfg, m, r, replace, now).lba;
            SameOutside(m, m', lba, Footprint(cfg, r))
            && forall x :: lba <= x < lba + Footprint(cfg, r) ==> x in m'
  {
    IssuedIs(cfg, m, r, replace, now);
    var plan, d := PlanWrite(cfg.caps, |r.key|, r.valueLen, r.aligned).plan, DecidePut(cfg, m, r, replace, now);
    IssuedLayDownImage(cfg.caps, r, plan, d.lba, m);
  }

  lemma FootprintFits(cfg: StoreConfig, r: Request)
    requires ValidConfig(cfg) && ValidRequest(cfg.caps, r) && SlotHoldsPair(cfg)
    ensures 0 < Footprint(cfg, r) <= SlotSize(cfg)
  {
    CeilDivMonotone(r.valueLen, MAX_VALUE_SIZE, cfg.caps.sectorSize);
  }

  predicate TakesFresh(cfg: StoreConfig, m: Media<Sector>, r: Request, replace: bool, now: nat)
    requires ValidConfig(cfg)
  {
    Choose(cfg, m, IdOf(r), r.valueLen, replace, now, 0).Fresh?
  }

  lemma FreshAddress(cfg: StoreConfig, m: Media<Sector>, r: Request, replace: bool, now: nat)
    requires ValidConfig(cfg) && ValidRequest(cfg.caps, r) && WritesPairWhole(cfg, m, r, replace, now)
    requires TakesFresh(cfg, m, r, replace, now)
    ensures !RangeFound(m, DecidePut(cfg, m, r, replace, now).lba, SlotSize(cfg))
  {
    FreshWindowUnmapped(cfg, m, IdOf(r), r.valueLen, replace, now, 0);
  }

  /** On any media, whatever pools share it, such a put at a fresh address overwrites nothing. */
  lemma FreshPutOverwritesNothing(cfg: StoreConfig, m: Media<Sector>, r: Request, replace: bool, now: nat)
    requires ValidConfig(cfg) && ValidRequest(cfg.caps, r) && SlotHoldsPair(cfg)
    requires WritesPairWhole(cfg, m, r, replace, now) && TakesFresh(cfg, m, r, replace, now)
    ensures var m' := AfterPut(cfg, m, r, replace, now); forall x :: x in m ==> x in m' && m'[x] == m[x]
  {
    WholePutWritesFootprint(cfg, m, r, replace, now);
    FootprintFits(cfg, r);
    FreshAddress(cfg, m, r, replace, now);
  }

  // ---- Runs ------------------------------------------------------------------------------

  /** Where the live pairs start and how many sectors each takes. */
  type Ledger = map<nat, nat>

  predicate Apart(a: nat, n: nat, b: nat, k: nat) {
    a + n <= b || b + k <= a
  }

  ghost predicate AllMapped(m: Media<Sector>, a: nat, n: nat) {
    forall x :: a <= x < a + n ==> x in m
  }

  /** Every pair in the ledger is mapped, and no two overlap. */
  ghost predicate LedgerOk(m: Media<Sector>, led: Ledger) {
    && (forall a :: a in led ==> led[a] > 0 && AllMapped(m, a, led[a]))
    && (forall a, b :: a in led && b in led && a != b ==> Apart(a, led[a], b, led[b]))
  }

  datatype PutCall = PutCall(r: Request, replace: bool, now: nat)

  /** The puts of a run: whole ones, at a fresh address or over a live pair of the same size. */
  ghost predicate GoodPut(cfg: StoreConfig, m: Media<Sector>, led: Ledger, p: PutCall)
    requires ValidConfig(cfg)
  {
    && ValidRequest(cfg.caps, p.r) && WritesPairWhole(cfg, m, p.r, p.replace, p.now)
    && (TakesFresh(cfg, m, p.r, p.replace, p.now)
        || (var lba := DecidePut(cfg, m, p.r, p.replace, p.now).lba; lba in led && led[lba] == Footprint(cfg, p.r)))
  }

  function LedgerAfter(cfg: StoreConfig, m: Media<Sector>, led: Ledger, p: PutCall): Ledger
    requires ValidConfig(cfg) && ValidRequest(cfg.caps, p.r) && WritesPairWhole(cfg, m, p.r, p.replace, p.now)
  {
    led[DecidePut(cfg, m, p.r, p.replace, p.now).lba := Footprint(cfg, p.r)]
  }

  lemma ApartFromUnmapped(m: Media<Sector>, a: nat, n: nat, b: nat, k: nat, slot: nat)
    requires n > 0 && AllMapped(m, a, n) && !RangeFound(m, b, slot) && 0 < k <= slot
    ensures Apart(a, n, b, k)
  {
    var x := if a < b then b else a;
    assert !(b <= x < b + slot && x in m);
  }

  lemma LedgerExtends(m: Media<Sector>, m': Media<Sector>, led: Ledger, lba: nat, n: nat)
    requires LedgerOk(m, led) && n > 0 && SameOutside(m, m', lba, n) && AllMapped(m', lba, n)
    requires forall a :: a in led && a != lba ==> Apart(a, led[a], lba, n)
    ensures LedgerOk(m', led[lba := n])
    ensures forall a, x :: a in led && a != lba && a <= x < a + led[a] ==> x in m && x in m' && m'[x] == m[x]
  {
    forall a, x | a in led && a != lba && a <= x < a + led[a] ensures x in m && x in m' && m'[x] == m[x] {
      assert AllMapped(m, a, led[a]);
      assert Apart(a, led[a], lba, n);
    }
  }

  /** Such a put keeps the pairs disjoint and leaves every other pair's sectors as they were. */
  lemma GoodPutKeepsLedger(cfg: StoreConfig, m: Media<Sector>, led: Ledger, p: PutCall)
    requires ValidConfig(cfg) && SlotHoldsPair(cfg) && LedgerOk(m, led) && GoodPut(cfg, m, led, p)
    ensures LedgerOk(AfterPut(cfg, m, p.r, p.replace, p.now), LedgerAfter(cfg, m, led, p))
    ensures var m' := AfterPut(cfg, m, p.r, p.replace, p.now);
            forall a, x :: a in led && a != DecidePut(cfg, m, p.r, p.replace, p.now).lba && a <= x < a + led[a] ==>
              x in m && x in m' && m'[x] == m[x]
  {
    var m', lba := AfterPut(cfg, m, p.r, p.replace, p.now), DecidePut(cfg, m, p.r, p.replace, p.now).lba;
    var n := Footprint(cfg, p.r);
    WholePutWritesFootprint(cfg, m, p.r, p.replace, p.now);
    FootprintFits(cfg, p.r);
    if TakesFresh(cfg, m, p.r, p.replace, p.now) {
      FreshAddress(cfg, m, p.r, p.replace, p.now);
      forall a | a in led && a != lba ensures Apart(a, led[a], lba, n) {
        ApartFromUnmapped(m, a, led[a], lba, n, SlotSize(cfg));
      }
    }
    LedgerExtends(m, m', led, lba, n);
  }

  ghost predicate GoodRun(cfg: StoreConfig, m: Media<Sector>, led: Ledger, ps: seq<PutCall>)
    requires ValidConfig(cfg)
    decreases |ps|
  {
    ps == []
    || (GoodPut(cfg, m, led, ps[0])
        && GoodRun(cfg, AfterPut(cfg, m, ps[0].r, ps[0].replace, ps[0].now), LedgerAfter(cfg, m, led, ps[0]), ps[1..]))
  }

  ghost function MediaAfterRun(cfg: StoreConfig, m: Media<Sector>, led: Ledger, ps: seq<PutCall>): Media<Sector>
    requires ValidConfig(cfg) && GoodRun(cfg, m, led, ps)
    decreases |ps|
  {
    if ps == [] then m
    else MediaAfterRun(cfg, AfterPut(cfg, m, ps[0].r, ps[0].replace, ps[0].now), LedgerAfter(cfg, m, led, ps[0]),
                       ps[1..])
  }

  ghost function LedgerAfterRun(cfg: StoreConfig, m: Media<Sector>, led: Ledger, ps: seq<PutCall>): Ledger
    requires ValidConfig(cfg) && GoodRun(cfg, m, led, ps)
    decreases |ps|
  {
    if ps == [] then led
    else LedgerAfterRun(cfg, AfterPut(cfg, m, ps[0].r, ps[0].replace, ps[0].now), LedgerAfter(cfg, m, led, ps[0]),
                        ps[1..])
  }

  /** Over any run of such puts, of keys of any pools, the live pairs stay pairwise disjoint. */
  lemma {:induction false} RunKeepsPairsDisjoint(cfg: StoreConfig, m: Media<Sector>, led: Ledger, ps: seq<PutCall>)
    requires ValidConfig(cfg) && SlotHoldsPair(cfg) && LedgerOk(m, led) && GoodRun(cfg, m, led, ps)
    ensures LedgerOk(MediaAfterRun(cfg, m, led, ps), LedgerAfterRun(cfg, m, led, ps))
    ensures led.Keys <= LedgerAfterRun(cfg, m, led, ps).Keys
    decreases |ps|
  {
    if ps != [] {
      GoodPutKeepsLedger(cfg, m, led, ps[0]);
      RunKeepsPairsDisjoint(cfg, AfterPut(cfg, m, ps[0].r, ps[0].replace, ps[0].now), LedgerAfter(cfg, m, led, ps[0]),
                            ps[1..]);
    }
  }
}
