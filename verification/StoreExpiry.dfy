/** How long a put keeps its key: what the caller asked for, or the store's own lifetime in
    global mode (src/kv_store_mgr.cpp, kv_put and kv_expire). The clock has 32 bits. */
module StoreExpiry {
  import opened Bits
  import opened HashFunc
  import opened Record
  import opened IoVectors
  import opened PutVectors
  import opened StoreSpec
  import opened StoreProofs
  import opened StoreRuns
  import opened Store

  /** The lifetime in seconds that a put asks for: 0 is for ever. */
  predicate LivesFor(mode: ExpiryMode, global: Word32, request: Request, life: Word32) {
    && (mode.ArbitraryExpiry? ==> life == request.expiry)
    && (mode.GlobalExpiry? ==> life == global)
  }

  /** A get's result is the value of the request. */
  ghost predicate Returns(res: GetResult, request: Request, len: nat) {
    res.Got? && res.bytes == Take(RequestValue(request), Min(len, request.valueLen))
    && res.valueLen == request.valueLen && res.genCount == request.genCount
  }

  /** A put of the caller's request at `now` that wrote its pair whole, then any changes of other
      keys: m is the media before the put, m' after the changes. */
  ghost predicate WrittenThen(cfg: StoreConfig, global: Word32, poolHash: nat, m: Media<Sector>, request: Request,
                              replace: bool, now: Word32, res: PutResult, after: seq<Change>, m': Media<Sector>)
    requires ValidConfig(cfg) && ValidRequest(cfg.caps, request)
  {
    var r := Timed(cfg.expiryMode, global, request, now);
    && Session(cfg, m, poolHash) && InRun(cfg, poolHash, IdOf(request))
    && WritesPairWhole(cfg, m, r, replace, now)
    && ValidHistory(cfg, poolHash, AfterPut(cfg, m, r, replace, now), after)
    && (forall i :: 0 <= i < |after| ==> ChangedKey(after[i]) != IdOf(request))
    && (exists written ::
          PutEnds(cfg, m, r, replace, now, res, written) && ValidHistory(cfg, poolHash, written, after)
          && m' == AfterHistory(cfg, poolHash, written, after))
    && res.Done?
  }

  /** A get returns the value for as long as the put's lifetime lasts and reports the key absent
      afterwards; without a lifetime, or with expiry disabled, it returns it for ever. When the
      end of the lifetime passes the end of the clock the stored time has wrapped around: the key
      is absent at once, except that a sum of exactly 2^32 is stored as 0 and never expires. */
  lemma GetKeepsLifetime(cfg: StoreConfig, global: Word32, poolHash: nat, m: Media<Sector>, request: Request,
                         replace: bool, now: Word32, res: PutResult, after: seq<Change>, m': Media<Sector>,
                         life: Word32, len: nat, later: Word32)
    requires ValidConfig(cfg) && ValidRequest(cfg.caps, request)
    requires WrittenThen(cfg, global, poolHash, m, request, replace, now, res, after, m')
    requires LivesFor(cfg.expiryMode, global, request, life)
    ensures var got := GetOf(cfg, m', IdOf(request), len, later);
            Returns(got, request, len) || got == GetFailed(ObjectNotFound)
    ensures cfg.expiryMode.DisableExpiry? || life == 0 ==>
              Returns(GetOf(cfg, m', IdOf(request), len, later), request, len)
    ensures !cfg.expiryMode.DisableExpiry? && 0 < life && now + life < 0x1_0000_0000 ==>
              (Returns(GetOf(cfg, m', IdOf(request), len, later), request, len) <==> later <= now + life)
    ensures !cfg.expiryMode.DisableExpiry? && 0 < life && now + life >= 0x1_0000_0000 && now <= later ==>
              (Returns(GetOf(cfg, m', IdOf(request), len, later), request, len) <==> now + life == 0x1_0000_0000)
  {
    GetAfterWrite(cfg, global, poolHash, m, request, replace, now, res, after, m', len, later);
    if !cfg.expiryMode.DisableExpiry? {
      StoredTime(cfg.expiryMode, global, request, now, life);
    }
  }

  /** The time a header stores, compared with a later reading of the clock. */
  lemma StoredTime(mode: ExpiryMode, global: Word32, request: Request, now: Word32, life: Word32)
    requires LivesFor(mode, global, request, life) && !mode.DisableExpiry?
    ensures var e := Timed(mode, global, request, now).expiry;
            && (life == 0 ==> e == 0)
            && (0 < life && now + life < 0x1_0000_0000 ==> e == now + life)
            && (now + life == 0x1_0000_0000 ==> e == 0)
            && (now + life > 0x1_0000_0000 ==> 0 < e < now)
  {
    if now + life >= 0x1_0000_0000 {
      DivModUnique(now + life, 0x1_0000_0000, 1, now + life - 0x1_0000_0000);
    }
  }

  lemma GetAfterWrite(cfg: StoreConfig, global: Word32, poolHash: nat, m: Media<Sector>, request: Request,
                      replace: bool, now: Word32, res: PutResult, after: seq<Change>, m': Media<Sector>,
                      len: nat, later: Word32)
    requires ValidConfig(cfg) && ValidRequest(cfg.caps, request)
    requires WrittenThen(cfg, global, poolHash, m, request, replace, now, res, after, m')
    ensures var e, got := Timed(cfg.expiryMode, global, request, now).expiry,
                          GetOf(cfg, m', IdOf(request), len, later);
            if !cfg.expiryMode.DisableExpiry? && later > e && e != 0 then got == GetFailed(ObjectNotFound)
            else Returns(got, request, len)
  {
    var r := Timed(cfg.expiryMode, global, request, now);
    var written :| PutEnds(cfg, m, r, replace, now, res, written) && ValidHistory(cfg, poolHash, written, after)
                   && m' == AfterHistory(cfg, poolHash, written, after);
    FilledPutEnds(cfg, m, r, replace, now, res, written);
    GetReturnsLastPut(cfg, poolHash, m, r, replace, now, after, len, later);
  }
}
