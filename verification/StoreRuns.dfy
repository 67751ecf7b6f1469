/** Deletes, duplicate copies, and whole runs: when the store behaves as a clocked map. */
module StoreRuns {
  import opened Bits
  import opened HashFunc
  import opened Record
  import opened IoVectors
  import opened PutVectors
  import opened StoreSpec
  import opened StoreProofs

  // ---- Delete --------------------------------------------------------------------------

  lemma DeletePlace(cfg: StoreConfig, m: Media<Sector>, poolHash: nat, id: KeyId) returns (i: nat)
    requires Session(cfg, m, poolHash) && InRun(cfg, poolHash, id)
    ensures i == FindFrom(cfg, m, id, 0)
    ensures i < MAX_COLLISION ==>
              var lba := Probe(cfg, id, i);
              lba % SlotSize(cfg) == poolHash && lba >= cfg.dataStart && HoldsAt(m, lba, id)
              && SameOutside(m, AfterDelete(cfg, m, id), lba, SlotSize(cfg))
              && forall x :: lba <= x < lba + SlotSize(cfg) ==> x !in AfterDelete(cfg, m, id)
    ensures i == MAX_COLLISION ==> AfterDelete(cfg, m, id) == m
    ensures Sized(cfg, AfterDelete(cfg, m, id))
  {
    i := FindFrom(cfg, m, id, 0);
    if i < MAX_COLLISION {
      ProbeIsHead(cfg, id, poolHash, i);
    }
  }

  /** Delete keeps the invariant: the whole slot goes, and nothing of its neighbours. */
  lemma DeleteKeepsInv(cfg: StoreConfig, m: Media<Sector>, poolHash: nat, id: KeyId)
    requires Session(cfg, m, poolHash) && InRun(cfg, poolHash, id)
    ensures Inv(cfg, AfterDelete(cfg, m, id), poolHash)
  {
    var i := DeletePlace(cfg, m, poolHash, id);
    if i < MAX_COLLISION {
      var m', lba, slot := AfterDelete(cfg, m, id), Probe(cfg, id, i), SlotSize(cfg);
      forall x | x in m' && x >= cfg.dataStart
        ensures HeadOf(x, slot, poolHash) <= x && HeadOf(x, slot, poolHash) in m'
      {
        var head := HeadOf(x, slot, poolHash);
        HeadOfIsHead(x, slot, poolHash);
        if lba < head {
          FarApart(lba, head, slot);
        }
      }
    }
  }

  /** Delete leaves what every other key denotes unchanged. */
  lemma DeleteFrame(cfg: StoreConfig, m: Media<Sector>, poolHash: nat, id: KeyId, other: KeyId)
    requires Session(cfg, m, poolHash) && InRun(cfg, poolHash, id) && InRun(cfg, poolHash, other) && other != id
    ensures Lookup(cfg, AfterDelete(cfg, m, id), other) == Lookup(cfg, m, other)
    ensures forall j :: 0 <= j < MAX_COLLISION ==>
              (HoldsAt(m, Probe(cfg, other, j), other) <==>
               HoldsAt(AfterDelete(cfg, m, id), Probe(cfg, other, j), other))
  {
    var i := DeletePlace(cfg, m, poolHash, id);
    if i < MAX_COLLISION {
      var m', lba := AfterDelete(cfg, m, id), Probe(cfg, id, i);
      forall j | 0 <= j < MAX_COLLISION
        ensures HoldsAt(m, Probe(cfg, other, j), other) <==> HoldsAt(m', Probe(cfg, other, j), other)
        ensures HoldsAt(m, Probe(cfg, other, j), other) ==>
                  PairAt(cfg, m', Probe(cfg, other, j)) == PairAt(cfg, m, Probe(cfg, other, j))
      {
        var p := Probe(cfg, other, j);
        ProbeIsHead(cfg, other, poolHash, j);
        if p == lba {
          if HoldsAt(m, p, other) { OneKeyPerSector(m, p, id, other); }
        } else {
          PairElsewhere(cfg, m, m', poolHash, lba, p, SlotSize(cfg));
        }
      }
      FindFromAgrees(cfg, m, m', other, 0);
    }
  }

  /** No two of the key's addresses hold copies of it. */
  ghost predicate AtMostOne(cfg: StoreConfig, m: Media<Sector>, id: KeyId)
    requires ValidConfig(cfg)
  {
    forall i, j :: 0 <= i < MAX_COLLISION && 0 <= j < MAX_COLLISION
                   && HoldsAt(m, Probe(cfg, id, i), id) && HoldsAt(m, Probe(cfg, id, j), id)
                   ==> Probe(cfg, id, i) == Probe(cfg, id, j)
  }

  /** After a delete, each of the key's other addresses holds it exactly if it did before. */
  lemma DeleteAtAddress(cfg: StoreConfig, m: Media<Sector>, poolHash: nat, id: KeyId, j: nat)
    requires Session(cfg, m, poolHash) && InRun(cfg, poolHash, id) && j < MAX_COLLISION
    requires FindFrom(cfg, m, id, 0) < MAX_COLLISION
    ensures HoldsAt(AfterDelete(cfg, m, id), Probe(cfg, id, j), id) <==>
            HoldsAt(m, Probe(cfg, id, j), id) && Probe(cfg, id, j) != Probe(cfg, id, FindFrom(cfg, m, id, 0))
  {
    var i := DeletePlace(cfg, m, poolHash, id);
    ProbeIsHead(cfg, id, poolHash, j);
    if Probe(cfg, id, j) != Probe(cfg, id, i) {
      PairElsewhere(cfg, m, AfterDelete(cfg, m, id), poolHash, Probe(cfg, id, i), Probe(cfg, id, j), SlotSize(cfg));
    }
  }

  /** Delete makes the key absent exactly when there was no second copy; otherwise the key
      comes back with the value of an older copy. */
  lemma DeleteForgetsIff(cfg: StoreConfig, m: Media<Sector>, poolHash: nat, id: KeyId)
    requires Session(cfg, m, poolHash) && InRun(cfg, poolHash, id)
    ensures Lookup(cfg, AfterDelete(cfg, m, id), id) == None <==> AtMostOne(cfg, m, id)
    ensures AtMostOne(cfg, m, id) ==> AtMostOne(cfg, AfterDelete(cfg, m, id), id)
  {
    var m', i := AfterDelete(cfg, m, id), FindFrom(cfg, m, id, 0);
    if i < MAX_COLLISION {
      forall j | 0 <= j < MAX_COLLISION
        ensures HoldsAt(m', Probe(cfg, id, j), id) <==>
                HoldsAt(m, Probe(cfg, id, j), id) && Probe(cfg, id, j) != Probe(cfg, id, i)
      {
        DeleteAtAddress(cfg, m, poolHash, id, j);
      }
    }
  }

  // ---- Second copies -------------------------------------------------------------------

  /** After an issued put, its key is at the address written, and at another one exactly if it
      was there before. */
  lemma PutAtAddress(cfg: StoreConfig, m: Media<Sector>, poolHash: nat, r: Request, replace: bool, now: nat, j: nat)
    requires Session(cfg, m, poolHash) && ValidRequest(cfg.caps, r) && InRun(cfg, poolHash, IdOf(r))
    requires j < MAX_COLLISION && DecidePut(cfg, m, r, replace, now).Issue?
    requires AllFilled(cfg, m, r, replace, now)
    ensures var p, lba := Probe(cfg, IdOf(r), j), DecidePut(cfg, m, r, replace, now).lba;
            HoldsAt(AfterPut(cfg, m, r, replace, now), p, IdOf(r)) <==> p == lba || HoldsAt(m, p, IdOf(r))
  {
    var d, p := DecidePut(cfg, m, r, replace, now), Probe(cfg, IdOf(r), j);
    var i := IssuePlace(cfg, m, poolHash, r, replace, now);
    PutHasEffect(cfg, m, poolHash, r, replace, now);
    ProbeIsHead(cfg, IdOf(r), poolHash, j);
    if p != d.lba {
      PairElsewhere(cfg, m, AfterPut(cfg, m, r, replace, now), poolHash, d.lba, p, SlotSize(cfg) - poolHash);
    }
  }

  predicate Stored(cfg: StoreConfig, m: Media<Sector>, id: KeyId)
    requires ValidConfig(cfg)
  {
    FindFrom(cfg, m, id, 0) < MAX_COLLISION
  }

  /** Some address before the one that holds the key is unmapped: a delete has left a hole. */
  predicate HoleBefore(cfg: StoreConfig, m: Media<Sector>, id: KeyId)
    requires ValidConfig(cfg)
  {
    Stored(cfg, m, id) && exists j :: 0 <= j < FindFrom(cfg, m, id, 0) && Probe(cfg, id, j) !in m
  }

  /** An issued put makes a second copy exactly when the key is stored behind a hole. */
  lemma PutDuplicatesIff(cfg: StoreConfig, m: Media<Sector>, poolHash: nat, r: Request, replace: bool, now: nat)
    requires Session(cfg, m, poolHash) && ValidRequest(cfg.caps, r) && InRun(cfg, poolHash, IdOf(r))
    requires AtMostOne(cfg, m, IdOf(r)) && DecidePut(cfg, m, r, replace, now).Issue?
    requires AllFilled(cfg, m, r, replace, now)
    ensures !AtMostOne(cfg, AfterPut(cfg, m, r, replace, now), IdOf(r)) <==> HoleBefore(cfg, m, IdOf(r))
  {
    var m', d := AfterPut(cfg, m, r, replace, now), DecidePut(cfg, m, r, replace, now);
    var i := IssuePlace(cfg, m, poolHash, r, replace, now);
    forall j | 0 <= j < MAX_COLLISION
      ensures HoldsAt(m', Probe(cfg, IdOf(r), j), IdOf(r)) <==>
              Probe(cfg, IdOf(r), j) == d.lba || HoldsAt(m, Probe(cfg, IdOf(r), j), IdOf(r))
    {
      PutAtAddress(cfg, m, poolHash, r, replace, now, j);
    }
    HoleIsTaken(cfg, m, IdOf(r), i);
    if HoleBefore(cfg, m, IdOf(r)) {
      var k := FindFrom(cfg, m, IdOf(r), 0);
      assert HoldsAt(m', Probe(cfg, IdOf(r), i), IdOf(r)) && HoldsAt(m', Probe(cfg, IdOf(r), k), IdOf(r));
    }
  }

  /** The probe loop stops at an unmapped address although the key is stored, exactly behind a hole. */
  lemma HoleIsTaken(cfg: StoreConfig, m: Media<Sector>, id: KeyId, i: nat)
    requires ValidConfig(cfg) && i == StopFrom(cfg, m, id, 0) < MAX_COLLISION
    ensures HoleBefore(cfg, m, id) <==> Probe(cfg, id, i) !in m && Stored(cfg, m, id)
  {
    var k := FindFrom(cfg, m, id, 0);
    if HoleBefore(cfg, m, id) {
      var j :| 0 <= j < k && Probe(cfg, id, j) !in m;
      assert i <= j;
    }
  }

  /** With a hole before the stored copy, a put does not see that the key exists: it stores a
      second copy, and a delete then uncovers the first. */
  lemma HoleThenDeleteResurrects(cfg: StoreConfig, m: Media<Sector>, poolHash: nat, r: Request, replace: bool, now: nat)
    requires Session(cfg, m, poolHash) && ValidRequest(cfg.caps, r) && InRun(cfg, poolHash, IdOf(r))
    requires HoleBefore(cfg, m, IdOf(r))
    requires PlanWrite(cfg.caps, |r.key|, r.valueLen, r.aligned).Planned?
    requires AllFilled(cfg, m, r, replace, now)
    ensures DecidePut(cfg, m, r, replace, now).Issue?
    ensures var m' := AfterPut(cfg, m, r, replace, now);
            Lookup(cfg, AfterDelete(cfg, m', IdOf(r)), IdOf(r)) == Lookup(cfg, m, IdOf(r)) != None
  {
    var id := IdOf(r);
    HoleIssues(cfg, m, poolHash, r, replace, now);
    var d, m' := DecidePut(cfg, m, r, replace, now), AfterPut(cfg, m, r, replace, now);
    var i := PutIsFoundWhereStored(cfg, m, poolHash, r, replace, now);
    PutKeepsInv(cfg, m, poolHash, r, replace, now);
    var m2 := AfterDelete(cfg, m', id);
    PutHasEffect(cfg, m, poolHash, r, replace, now);
    var i2 := DeletePlace(cfg, m', poolHash, id);
    forall j | 0 <= j < MAX_COLLISION
      ensures HoldsAt(m2, Probe(cfg, id, j), id) <==> HoldsAt(m, Probe(cfg, id, j), id)
      ensures HoldsAt(m, Probe(cfg, id, j), id) ==>
                PairAt(cfg, m2, Probe(cfg, id, j)) == PairAt(cfg, m, Probe(cfg, id, j))
    {
      PutAtAddress(cfg, m, poolHash, r, replace, now, j);
      DeleteAtAddress(cfg, m', poolHash, id, j);
      var p := Probe(cfg, id, j);
      ProbeIsHead(cfg, id, poolHash, j);
      if HoldsAt(m, p, id) {
        PairElsewhere(cfg, m, m', poolHash, d.lba, p, SlotSize(cfg) - poolHash);
        PairElsewhere(cfg, m', m2, poolHash, d.lba, p, SlotSize(cfg));
      }
    }
    FindFromAgrees(cfg, m, m2, id, 0);
  }

  /** Behind a hole the put takes an unmapped address. */
  lemma HoleIssues(cfg: StoreConfig, m: Media<Sector>, poolHash: nat, r: Request, replace: bool, now: nat)
    requires Session(cfg, m, poolHash) && ValidRequest(cfg.caps, r) && InRun(cfg, poolHash, IdOf(r))
    requires HoleBefore(cfg, m, IdOf(r)) && PlanWrite(cfg.caps, |r.key|, r.valueLen, r.aligned).Planned?
    ensures DecidePut(cfg, m, r, replace, now).Issue? && DecidePut(cfg, m, r, replace, now).lba !in m
  {
    ChooseStops(cfg, m, poolHash, IdOf(r), r.valueLen, replace, now);
    HoleIsTaken(cfg, m, IdOf(r), StopFrom(cfg, m, IdOf(r), 0));
  }

  /** A put that runs into no stored copy of its key takes its first free address. */
  lemma FirstFreeIsTaken(cfg: StoreConfig, m: Media<Sector>, poolHash: nat, r: Request, replace: bool, now: nat, i: nat)
    requires Session(cfg, m, poolHash) && ValidRequest(cfg.caps, r) && InRun(cfg, poolHash, IdOf(r))
    requires PlanWrite(cfg.caps, |r.key|, r.valueLen, r.aligned).Planned? && i < MAX_COLLISION
    requires Probe(cfg, IdOf(r), i) !in m
    requires forall j :: 0 <= j < i ==> Probe(cfg, IdOf(r), j) in m && !HoldsAt(m, Probe(cfg, IdOf(r), j), IdOf(r))
    ensures DecidePut(cfg, m, r, replace, now).Issue?
    ensures DecidePut(cfg, m, r, replace, now).lba == Probe(cfg, IdOf(r), i)
  {
    ChooseStops(cfg, m, poolHash, IdOf(r), r.valueLen, replace, now);
    assert StopFrom(cfg, m, IdOf(r), 0) == i;
  }

  /** A put of a that takes its first address, as b will find it. */
  lemma FirstAddressTaken(cfg: StoreConfig, m: Media<Sector>, poolHash: nat, a: Request, id: KeyId)
    requires Session(cfg, m, poolHash) && WholeRequest(cfg, poolHash, a) && InRun(cfg, poolHash, id) && IdOf(a) != id
    requires Probe(cfg, IdOf(a), 0) == Probe(cfg, id, 0) && Probe(cfg, id, 0) !in m
    requires Probe(cfg, id, 1) != Probe(cfg, id, 0) && Probe(cfg, id, 1) !in m
    ensures var m' := AfterPut(cfg, m, a, false, 0);
            Session(cfg, m', poolHash) && HoldsAt(m', Probe(cfg, id, 0), IdOf(a)) && !HoldsAt(m', Probe(cfg, id, 0), id)
            && Probe(cfg, id, 0) in m' && Probe(cfg, id, 1) !in m'
  {
    var m' := AfterPut(cfg, m, a, false, 0);
    FirstFreeIsTaken(cfg, m, poolHash, a, false, 0, 0);
    PutKeepsInv(cfg, m, poolHash, a, false, 0);
    PutHasEffect(cfg, m, poolHash, a, false, 0);
    ProbeIsHead(cfg, id, poolHash, 0);
    ProbeIsHead(cfg, id, poolHash, 1);
    if HoldsAt(m', Probe(cfg, id, 0), id) {
      OneKeyPerSector(m', Probe(cfg, id, 0), id, IdOf(a));
    }
    PairElsewhere(cfg, m, m', poolHash, Probe(cfg, id, 0), Probe(cfg, id, 1), SlotSize(cfg) - poolHash);
  }

  /** A request of the run whose vectors are all filled on any media. */
  ghost predicate WholeRequest(cfg: StoreConfig, poolHash: nat, r: Request): (whole: bool)
    requires ValidConfig(cfg)
    ensures whole ==> ValidRequest(cfg.caps, r) && forall m: Media<Sector> :: AllFilled(cfg, m, r, false, 0)
  {
    WholeValuesAreFilled(cfg, r, false, 0);
    ValidRequest(cfg.caps, r) && InRun(cfg, poolHash, IdOf(r))
      && PlanWrite(cfg.caps, |r.key|, r.valueLen, r.aligned).Planned?
    && (r.aligned || !SpansSectors(cfg.caps, |r.key|, r.valueLen))
  }

  /** Two keys with the same first address: a takes it, and b goes to its second one. */
  lemma SecondTakesNext(cfg: StoreConfig, m: Media<Sector>, poolHash: nat, a: Request, b: Request)
    returns (m': Media<Sector>)
    requires Session(cfg, m, poolHash) && WholeRequest(cfg, poolHash, a) && WholeRequest(cfg, poolHash, b)
    requires IdOf(a) != IdOf(b) && !Stored(cfg, m, IdOf(b))
    requires Probe(cfg, IdOf(a), 0) == Probe(cfg, IdOf(b), 0) && Probe(cfg, IdOf(b), 0) !in m
    requires Probe(cfg, IdOf(b), 1) != Probe(cfg, IdOf(b), 0) && Probe(cfg, IdOf(b), 1) !in m
    ensures m' == AfterPut(cfg, AfterPut(cfg, m, a, false, 0), b, false, 0)
    ensures Session(cfg, m', poolHash) && HoldsAt(m', Probe(cfg, IdOf(a), 0), IdOf(a))
    ensures forall j :: 0 <= j < MAX_COLLISION ==>
              (HoldsAt(m', Probe(cfg, IdOf(b), j), IdOf(b)) <==> Probe(cfg, IdOf(b), j) == Probe(cfg, IdOf(b), 1))
  {
    var ida, idb := IdOf(a), IdOf(b);
    var m1 := AfterPut(cfg, m, a, false, 0);
    FirstAddressTaken(cfg, m, poolHash, a, idb);
    PutFrame(cfg, m, poolHash, a, false, 0, idb);
    FirstFreeIsTaken(cfg, m1, poolHash, b, false, 0, 1);
    m' := AfterPut(cfg, m1, b, false, 0);
    PutKeepsInv(cfg, m1, poolHash, b, false, 0);
    PutFrame(cfg, m1, poolHash, b, false, 0, ida);
    forall j | 0 <= j < MAX_COLLISION
      ensures HoldsAt(m', Probe(cfg, idb, j), idb) <==> Probe(cfg, idb, j) == Probe(cfg, idb, 1)
    {
      PutAtAddress(cfg, m1, poolHash, b, false, 0, j);
    }
    assert HoldsAt(m', Probe(cfg, ida, 0), ida);
  }

  /** Two such keys leave a hole: a is put, b is put, a is deleted. The next put of b then
      makes a second copy. */
  lemma HoleIsReached(cfg: StoreConfig, m: Media<Sector>, poolHash: nat, a: Request, b: Request)
    returns (m': Media<Sector>)
    requires Session(cfg, m, poolHash) && WholeRequest(cfg, poolHash, a) && WholeRequest(cfg, poolHash, b)
    requires IdOf(a) != IdOf(b) && !Stored(cfg, m, IdOf(b))
    requires Probe(cfg, IdOf(a), 0) == Probe(cfg, IdOf(b), 0) && Probe(cfg, IdOf(b), 0) !in m
    requires Probe(cfg, IdOf(b), 1) != Probe(cfg, IdOf(b), 0) && Probe(cfg, IdOf(b), 1) !in m
    ensures m' == AfterDelete(cfg, AfterPut(cfg, AfterPut(cfg, m, a, false, 0), b, false, 0), IdOf(a))
    ensures Session(cfg, m', poolHash) && Probe(cfg, IdOf(b), 0) !in m'
    ensures AtMostOne(cfg, m', IdOf(b)) && HoleBefore(cfg, m', IdOf(b))
    ensures !AtMostOne(cfg, AfterPut(cfg, m', b, false, 0), IdOf(b))
  {
    var ida, idb := IdOf(a), IdOf(b);
    var m2 := SecondTakesNext(cfg, m, poolHash, a, b);
    m' := AfterDelete(cfg, m2, ida);
    DeleteKeepsInv(cfg, m2, poolHash, ida);
    DeleteFrame(cfg, m2, poolHash, ida, idb);
    var i := DeletePlace(cfg, m2, poolHash, ida);
    assert HoldsAt(m', Probe(cfg, idb, 1), idb);
    FirstFreeIsTaken(cfg, m', poolHash, b, false, 0, 0);
    PutDuplicatesIff(cfg, m', poolHash, b, false, 0);
  }

  // ---- Delete-free runs ------------------------------------------------------------------

  /** No key is stored behind a free address of its own. */
  ghost predicate Packed(cfg: StoreConfig, m: Media<Sector>, poolHash: nat)
    requires ValidConfig(cfg)
  {
    forall id, i: nat, j: nat :: InRun(cfg, poolHash, id) && j < i < MAX_COLLISION
      && HoldsAt(m, Probe(cfg, id, i), id)
      && (forall k: nat :: k < i ==> Probe(cfg, id, k) != Probe(cfg, id, i))
      ==> Probe(cfg, id, j) in m
  }

  ghost predicate Unique(cfg: StoreConfig, m: Media<Sector>, poolHash: nat)
    requires ValidConfig(cfg)
  {
    forall id :: InRun(cfg, poolHash, id) ==> AtMostOne(cfg, m, id)
  }

  /** A packed store has no holes. */
  lemma PackedHasNoHole(cfg: StoreConfig, m: Media<Sector>, poolHash: nat, id: KeyId)
    requires ValidConfig(cfg) && Packed(cfg, m, poolHash) && InRun(cfg, poolHash, id)
    ensures !HoleBefore(cfg, m, id)
  {
    if Stored(cfg, m, id) {
      var i := FindFrom(cfg, m, id, 0);
      assert HoldsAt(m, Probe(cfg, id, i), id);
      forall k: nat | k < i ensures Probe(cfg, id, k) in m {
        assert forall l: nat :: l < i ==> Probe(cfg, id, l) != Probe(cfg, id, i);
      }
    }
  }

  /** Without a hole before it the probe loop reaches a stored key before any free address. */
  lemma StopsAtKey(cfg: StoreConfig, m: Media<Sector>, id: KeyId)
    requires ValidConfig(cfg) && Stored(cfg, m, id) && !HoleBefore(cfg, m, id)
    ensures StopFrom(cfg, m, id, 0) == FindFrom(cfg, m, id, 0)
  {
    var s := StopFrom(cfg, m, id, 0);
    var p := Probe(cfg, id, s);
    assert !(p !in m && s < FindFrom(cfg, m, id, 0));
  }

  lemma PutKeepsPacked(cfg: StoreConfig, m: Media<Sector>, poolHash: nat, r: Request, replace: bool, now: nat)
    requires Session(cfg, m, poolHash) && ValidRequest(cfg.caps, r) && InRun(cfg, poolHash, IdOf(r))
    requires Packed(cfg, m, poolHash)
    requires AllFilled(cfg, m, r, replace, now)
    ensures Packed(cfg, AfterPut(cfg, m, r, replace, now), poolHash)
  {
    var m', d := AfterPut(cfg, m, r, replace, now), DecidePut(cfg, m, r, replace, now);
    if d.Issue? {
      var s := IssuePlace(cfg, m, poolHash, r, replace, now);
      PutHasEffect(cfg, m, poolHash, r, replace, now);
      forall id, i: nat, j: nat | InRun(cfg, poolHash, id) && j < i < MAX_COLLISION
        && HoldsAt(m', Probe(cfg, id, i), id)
        && (forall k: nat :: k < i ==> Probe(cfg, id, k) != Probe(cfg, id, i))
        ensures Probe(cfg, id, j) in m'
      {
        if id == IdOf(r) && Probe(cfg, id, i) == d.lba {
          assert i == s;
        } else if id == IdOf(r) {
          PutAtAddress(cfg, m, poolHash, r, replace, now, i);
        } else {
          PutFrame(cfg, m, poolHash, r, replace, now, id);
        }
        assert Probe(cfg, id, j) in m;
        ProbeIsHead(cfg, id, poolHash, j);
        if Probe(cfg, id, j) != d.lba {
          PairElsewhere(cfg, m, m', poolHash, d.lba, Probe(cfg, id, j), SlotSize(cfg) - poolHash);
        }
      }
    }
  }

  /** A put that meets no hole before its stored key leaves every key at one address at most. */
  lemma PutKeepsUnique(cfg: StoreConfig, m: Media<Sector>, poolHash: nat, r: Request, replace: bool, now: nat)
    requires Session(cfg, m, poolHash) && ValidRequest(cfg.caps, r) && InRun(cfg, poolHash, IdOf(r))
    requires Unique(cfg, m, poolHash) && !HoleBefore(cfg, m, IdOf(r))
    requires AllFilled(cfg, m, r, replace, now)
    ensures Unique(cfg, AfterPut(cfg, m, r, replace, now), poolHash)
  {
    var m', d := AfterPut(cfg, m, r, replace, now), DecidePut(cfg, m, r, replace, now);
    if d.Issue? {
      PutDuplicatesIff(cfg, m, poolHash, r, replace, now);
      forall id | InRun(cfg, poolHash, id) ensures AtMostOne(cfg, m', id) {
        if id != IdOf(r) {
          PutFrame(cfg, m, poolHash, r, replace, now, id);
          assert AtMostOne(cfg, m, id);
        }
      }
    }
  }

  lemma DeleteKeepsUnique(cfg: StoreConfig, m: Media<Sector>, poolHash: nat, id: KeyId)
    requires Session(cfg, m, poolHash) && InRun(cfg, poolHash, id) && Unique(cfg, m, poolHash)
    ensures Unique(cfg, AfterDelete(cfg, m, id), poolHash)
  {
    forall other | InRun(cfg, poolHash, other) ensures AtMostOne(cfg, AfterDelete(cfg, m, id), other) {
      assert AtMostOne(cfg, m, other);
      if other == id {
        DeleteForgetsIff(cfg, m, poolHash, id);
      } else {
        DeleteFrame(cfg, m, poolHash, id, other);
      }
    }
  }

  predicate PairExpired(cfg: StoreConfig, p: Pair, now: nat) {
    !cfg.expiryMode.DisableExpiry? && now > p.expiry && p.expiry != 0
  }

  /** A put is refused because the key exists exactly when replace is not asked and the key
      denotes an unexpired pair that no hole precedes. */
  lemma RefusedAsExistingIff(cfg: StoreConfig, m: Media<Sector>, poolHash: nat, r: Request, replace: bool, now: nat)
    requires Session(cfg, m, poolHash) && ValidRequest(cfg.caps, r) && InRun(cfg, poolHash, IdOf(r))
    requires PlanWrite(cfg.caps, |r.key|, r.valueLen, r.aligned).Planned?
    ensures DecidePut(cfg, m, r, replace, now) == Refuse(ObjectExists) <==>
            var l := Lookup(cfg, m, IdOf(r));
            !replace && l.Some? && !PairExpired(cfg, l.value, now) && !HoleBefore(cfg, m, IdOf(r))
  {
    ChooseStops(cfg, m, poolHash, IdOf(r), r.valueLen, replace, now);
    if HoleBefore(cfg, m, IdOf(r)) {
      HoleIssues(cfg, m, poolHash, r, replace, now);
    } else if Stored(cfg, m, IdOf(r)) {
      StopsAtKey(cfg, m, IdOf(r));
      DecideWhenStored(cfg, m, r, replace, now);
    } else {
      DecideWhenAbsent(cfg, m, r, replace, now);
    }
  }

  /** In any state a put finds no room exactly when all eight addresses hold other keys. */
  lemma NoRoomIff(cfg: StoreConfig, m: Media<Sector>, poolHash: nat, r: Request, replace: bool, now: nat)
    requires Session(cfg, m, poolHash) && ValidRequest(cfg.caps, r) && InRun(cfg, poolHash, IdOf(r))
    ensures Choose(cfg, m, IdOf(r), r.valueLen, replace, now, 0) == NoRoom <==>
            forall i :: 0 <= i < MAX_COLLISION ==>
              Probe(cfg, IdOf(r), i) in m && !HoldsAt(m, Probe(cfg, IdOf(r), i), IdOf(r))
  {
    ChooseStops(cfg, m, poolHash, IdOf(r), r.valueLen, replace, now);
    var s := StopFrom(cfg, m, IdOf(r), 0);
    assert s < MAX_COLLISION ==> !(Probe(cfg, IdOf(r), s) in m && !HoldsAt(m, Probe(cfg, IdOf(r), s), IdOf(r)));
  }

  // ---- Refinement of a clocked map -------------------------------------------------------

  type Table = map<KeyId, Pair>

  ghost predicate Models(cfg: StoreConfig, m: Media<Sector>, poolHash: nat, t: Table)
    requires ValidConfig(cfg)
  {
    forall id :: InRun(cfg, poolHash, id) ==> Lookup(cfg, m, id) == if id in t then Some(t[id]) else None
  }

  datatype Op =
    | PutOp(r: Request, replace: bool, now: nat)
    | GetOp(id: KeyId, len: nat, now: nat)
    | DeleteOp(id: KeyId)

  datatype Outcome = Stores | Fails(error: Error) | Returns(result: GetResult) | Deleted

  function MediaAfter(cfg: StoreConfig, m: Media<Sector>, op: Op): Media<Sector>
    requires ValidConfig(cfg)
    requires op.PutOp? ==> ValidRequest(cfg.caps, op.r) && AllFilled(cfg, m, op.r, op.replace, op.now)
  {
    match op
    case PutOp(r, replace, now) => AfterPut(cfg, m, r, replace, now)
    case GetOp(_, _, _) => m
    case DeleteOp(id) => AfterDelete(cfg, m, id)
  }

  function OutcomeOf(cfg: StoreConfig, m: Media<Sector>, op: Op): Outcome
    requires ValidConfig(cfg) && (op.PutOp? ==> ValidRequest(cfg.caps, op.r))
  {
    match op
    case PutOp(r, replace, now) =>
      (match DecidePut(cfg, m, r, replace, now)
       case Refuse(e) => Fails(e)
       case Issue(_, _, _, _) => Stores)
    case GetOp(id, len, now) => Returns(GetOf(cfg, m, id, len, now))
    case DeleteOp(_) => Deleted
  }

  /** The operations of a run: puts that reach the media whole and do not replace a value by
      one a sector or more shorter, gets and deletes. */
  ghost predicate Asked(cfg: StoreConfig, poolHash: nat, t: Table, op: Op): (ok: bool)
    requires ValidConfig(cfg)
    ensures ok && op.PutOp? ==>
              ValidRequest(cfg.caps, op.r) && forall m: Media<Sector> :: AllFilled(cfg, m, op.r, op.replace, op.now)
  {
    match op
    case PutOp(r, replace, now) =>
      WholeValuesAreFilled(cfg, r, replace, now);
      && ValidRequest(cfg.caps, r) && InRun(cfg, poolHash, IdOf(r))
      && (r.aligned || !SpansSectors(cfg.caps, |r.key|, r.valueLen))
      && PlanWrite(cfg.caps, |r.key|, r.valueLen, r.aligned).Planned?
      && (replace && IdOf(r) in t && !PairExpired(cfg, t[IdOf(r)], now) ==>
            ValueSectors(cfg.caps, t[IdOf(r)].valueLen) <= ValueSectors(cfg.caps, r.valueLen))
    case GetOp(id, len, now) => InRun(cfg, poolHash, id)
    case DeleteOp(id) => InRun(cfg, poolHash, id)
  }

  /** Such an operation, unless it is a put that would meet a hole before its stored key. */
  ghost predicate Allowed(cfg: StoreConfig, m: Media<Sector>, poolHash: nat, t: Table, op: Op): (ok: bool)
    requires ValidConfig(cfg)
    ensures ok && op.PutOp? ==> ValidRequest(cfg.caps, op.r) && AllFilled(cfg, m, op.r, op.replace, op.now)
  {
    Asked(cfg, poolHash, t, op) && (op.PutOp? ==> !HoleBefore(cfg, m, IdOf(op.r)))
  }

  lemma WholeValuesAreFilled(cfg: StoreConfig, r: Request, replace: bool, now: nat)
    requires ValidConfig(cfg)
    ensures ValidRequest(cfg.caps, r) && (r.aligned || !SpansSectors(cfg.caps, |r.key|, r.valueLen)) ==>
              forall m: Media<Sector> :: AllFilled(cfg, m, r, replace, now)
  {
    if ValidRequest(cfg.caps, r) && (r.aligned || !SpansSectors(cfg.caps, |r.key|, r.valueLen)) {
      forall m: Media<Sector> ensures AllFilled(cfg, m, r, replace, now) {
        WhenAllFilled(cfg, m, r, replace, now);
      }
    }
  }

  function TableAfter(t: Table, op: Op, out: Outcome): Table {
    match op
    case PutOp(r, _, _) => if out == Stores then t[IdOf(r) := RequestPair(r)] else t
    case GetOp(_, _, _) => t
    case DeleteOp(id) => t - {id}
  }

  /** What a clocked map may answer. Only the refusal for lack of room is the store's own, and
      only for a key that is not there; a replaced value may be too long to trim. */
  predicate MapAnswers(cfg: StoreConfig, t: Table, op: Op, out: Outcome)
    requires Usable(cfg.caps)
  {
    match op
    case PutOp(r, replace, now) =>
      var present := IdOf(r) in t && !PairExpired(cfg, t[IdOf(r)], now);
      if present && !replace then out == Fails(ObjectExists)
      else if IdOf(r) !in t then out == Stores || out == Fails(InternalFailure)
      else if present && t[IdOf(r)].valueLen > r.valueLen && t[IdOf(r)].valueLen > TrimLimit(cfg.caps)
      then out == Fails(InternalFailure)
      else out == Stores
    case GetOp(id, len, now) =>
      out == Returns(
        if id !in t || PairExpired(cfg, t[id], now) then GetFailed(ObjectNotFound)
        else Got(Take(t[id].value, Min(len, t[id].valueLen)), t[id].valueLen, t[id].expiry, t[id].genCount))
    case DeleteOp(_) => out == Deleted
  }

  ghost predicate MapState(cfg: StoreConfig, m: Media<Sector>, poolHash: nat, t: Table) {
    Session(cfg, m, poolHash) && Unique(cfg, m, poolHash) && Models(cfg, m, poolHash, t)
  }

  /** One operation: the store answers as the map may, and then models the map's next table. */
  lemma StepRefinesMap(cfg: StoreConfig, m: Media<Sector>, poolHash: nat, t: Table, op: Op)
    requires MapState(cfg, m, poolHash, t) && Allowed(cfg, m, poolHash, t, op)
    ensures MapAnswers(cfg, t, op, OutcomeOf(cfg, m, op))
    ensures MapState(cfg, MediaAfter(cfg, m, op), poolHash, TableAfter(t, op, OutcomeOf(cfg, m, op)))
  {
    match op {
      case PutOp(r, replace, now) =>
        PutAnswers(cfg, m, poolHash, t, r, replace, now);
        PutKeepsInv(cfg, m, poolHash, r, replace, now);
        PutKeepsUnique(cfg, m, poolHash, r, replace, now);
        PutModels(cfg, m, poolHash, t, r, replace, now);
      case GetOp(id, _, _) =>
        assert Lookup(cfg, m, id) == if id in t then Some(t[id]) else None;
      case DeleteOp(id) =>
        DeleteKeepsInv(cfg, m, poolHash, id);
        DeleteKeepsUnique(cfg, m, poolHash, id);
        DeleteModels(cfg, m, poolHash, t, id);
    }
  }

  /** After a delete the key denotes nothing and the others what they did. */
  lemma DeleteModels(cfg: StoreConfig, m: Media<Sector>, poolHash: nat, t: Table, id: KeyId)
    requires MapState(cfg, m, poolHash, t) && InRun(cfg, poolHash, id)
    ensures Models(cfg, AfterDelete(cfg, m, id), poolHash, t - {id})
  {
    forall other | InRun(cfg, poolHash, other)
      ensures Lookup(cfg, AfterDelete(cfg, m, id), other) == if other in t - {id} then Some((t - {id})[other]) else None
    {
      assert Lookup(cfg, m, other) == if other in t then Some(t[other]) else None;
      if other == id {
        assert AtMostOne(cfg, m, id);
        DeleteForgetsIff(cfg, m, poolHash, id);
      } else {
        DeleteFrame(cfg, m, poolHash, id, other);
      }
    }
  }

  lemma PutAnswers(cfg: StoreConfig, m: Media<Sector>, poolHash: nat, t: Table, r: Request, replace: bool, now: nat)
    requires MapState(cfg, m, poolHash, t) && Allowed(cfg, m, poolHash, t, PutOp(r, replace, now))
    ensures MapAnswers(cfg, t, PutOp(r, replace, now), OutcomeOf(cfg, m, PutOp(r, replace, now)))
    ensures DecidePut(cfg, m, r, replace, now).Issue? ==> WritesPairWhole(cfg, m, r, replace, now)
  {
    var id := IdOf(r);
    assert Lookup(cfg, m, id) == if id in t then Some(t[id]) else None;
    ChooseStops(cfg, m, poolHash, id, r.valueLen, replace, now);
    if id in t {
      StopsAtKey(cfg, m, id);
      DecideWhenStored(cfg, m, r, replace, now);
    } else {
      DecideWhenAbsent(cfg, m, r, replace, now);
    }
  }

  lemma DecideWhenAbsent(cfg: StoreConfig, m: Media<Sector>, r: Request, replace: bool, now: nat)
    requires ValidConfig(cfg) && ValidRequest(cfg.caps, r) && !Stored(cfg, m, IdOf(r))
    requires PlanWrite(cfg.caps, |r.key|, r.valueLen, r.aligned).Planned?
    requires Choose(cfg, m, IdOf(r), r.valueLen, replace, now, 0)
             == ChoiceAt(cfg, m, IdOf(r), r.valueLen, replace, now, StopFrom(cfg, m, IdOf(r), 0))
    ensures var d := DecidePut(cfg, m, r, replace, now);
            d == Refuse(InternalFailure) || (d.Issue? && d.trim == [])
  {
  }

  lemma DecideOnReuse(cfg: StoreConfig, m: Media<Sector>, r: Request, replace: bool, now: nat, i: nat, trimLen: nat)
    requires ValidConfig(cfg) && ValidRequest(cfg.caps, r)
             && PlanWrite(cfg.caps, |r.key|, r.valueLen, r.aligned).Planned?
    requires Choose(cfg, m, IdOf(r), r.valueLen, replace, now, 0) == Reuse(i, trimLen)
    ensures var d := DecidePut(cfg, m, r, replace, now);
            if trimLen > TrimLimit(cfg.caps) then d == Refuse(InternalFailure)
            else d.Issue? && (trimLen == 0 || ValueSectors(cfg.caps, trimLen) <= ValueSectors(cfg.caps, r.valueLen)
                              ==> d.trim == [])
  {
    var trim := TrimVector(cfg.caps, r.valueLen, trimLen, Probe(cfg, IdOf(r), i));
    assert DecidePut(cfg, m, r, replace, now).Refuse? <==> trim.TrimTooLong?;
  }

  lemma DecideWhenStored(cfg: StoreConfig, m: Media<Sector>, r: Request, replace: bool, now: nat)
    requires ValidConfig(cfg) && ValidRequest(cfg.caps, r) && Stored(cfg, m, IdOf(r))
    requires PlanWrite(cfg.caps, |r.key|, r.valueLen, r.aligned).Planned?
    requires Choose(cfg, m, IdOf(r), r.valueLen, replace, now, 0)
             == ChoiceAt(cfg, m, IdOf(r), r.valueLen, replace, now, FindFrom(cfg, m, IdOf(r), 0))
    ensures var d, p := DecidePut(cfg, m, r, replace, now), Lookup(cfg, m, IdOf(r)).value;
            if PairExpired(cfg, p, now) then d.Issue? && d.trim == []
            else if !replace then d == Refuse(ObjectExists)
            else if p.valueLen > r.valueLen && p.valueLen > TrimLimit(cfg.caps) then d == Refuse(InternalFailure)
            else d.Issue? && (ValueSectors(cfg.caps, p.valueLen) <= ValueSectors(cfg.caps, r.valueLen) ==> d.trim == [])
  {
    var i := FindFrom(cfg, m, IdOf(r), 0);
    var h := HeaderAt(m, Probe(cfg, IdOf(r), i));
    if Expired(cfg, h, now) {
      DecideOnReuse(cfg, m, r, replace, now, i, 0);
    } else if replace {
      DecideOnReuse(cfg, m, r, replace, now, i, if h.valueLen > r.valueLen then h.valueLen else 0);
    }
  }

  /** The table after a put: its pair when it went ahead, as before when it was refused. */
  lemma TableAfterPut(cfg: StoreConfig, m: Media<Sector>, t: Table, r: Request, replace: bool, now: nat)
    requires ValidConfig(cfg) && ValidRequest(cfg.caps, r) && AllFilled(cfg, m, r, replace, now)
    ensures TableAfter(t, PutOp(r, replace, now), OutcomeOf(cfg, m, PutOp(r, replace, now)))
            == if DecidePut(cfg, m, r, replace, now).Issue? then t[IdOf(r) := RequestPair(r)] else t
    ensures !DecidePut(cfg, m, r, replace, now).Issue? ==> AfterPut(cfg, m, r, replace, now) == m
  {
  }

  /** What a key of the run denotes after the put. */
  lemma PutLookup(cfg: StoreConfig, m: Media<Sector>, poolHash: nat, r: Request, replace: bool, now: nat, id: KeyId)
    requires Session(cfg, m, poolHash) && ValidRequest(cfg.caps, r) && InRun(cfg, poolHash, IdOf(r))
    requires InRun(cfg, poolHash, id) && AllFilled(cfg, m, r, replace, now)
    requires DecidePut(cfg, m, r, replace, now).Issue? ==> WritesPairWhole(cfg, m, r, replace, now)
    ensures Lookup(cfg, AfterPut(cfg, m, r, replace, now), id)
            == if id == IdOf(r) && DecidePut(cfg, m, r, replace, now).Issue? then Some(RequestPair(r))
              else Lookup(cfg, m, id)
  {
    if id != IdOf(r) {
      PutFrame(cfg, m, poolHash, r, replace, now, id);
    } else if DecidePut(cfg, m, r, replace, now).Issue? {
      PutThenLookup(cfg, m, poolHash, r, replace, now);
    }
  }

  lemma PutModels(cfg: StoreConfig, m: Media<Sector>, poolHash: nat, t: Table, r: Request, replace: bool, now: nat)
    requires MapState(cfg, m, poolHash, t) && Allowed(cfg, m, poolHash, t, PutOp(r, replace, now))
    requires DecidePut(cfg, m, r, replace, now).Issue? ==> WritesPairWhole(cfg, m, r, replace, now)
    ensures Models(cfg, AfterPut(cfg, m, r, replace, now), poolHash,
                   TableAfter(t, PutOp(r, replace, now), OutcomeOf(cfg, m, PutOp(r, replace, now))))
  {
    var m' := AfterPut(cfg, m, r, replace, now);
    var t' := TableAfter(t, PutOp(r, replace, now), OutcomeOf(cfg, m, PutOp(r, replace, now)));
    TableAfterPut(cfg, m, t, r, replace, now);
    forall id | InRun(cfg, poolHash, id)
      ensures Lookup(cfg, m', id) == if id in t' then Some(t'[id]) else None
    {
      assert Lookup(cfg, m, id) == if id in t then Some(t[id]) else None;
      PutLookup(cfg, m, poolHash, r, replace, now, id);
    }
  }

  /** Every operation of a run is allowed where it comes. */
  ghost predicate AllAllowed(cfg: StoreConfig, m: Media<Sector>, poolHash: nat, t: Table, ops: seq<Op>)
    requires ValidConfig(cfg)
    decreases |ops|
  {
    ops == []
    || (Allowed(cfg, m, poolHash, t, ops[0])
        && AllAllowed(cfg, MediaAfter(cfg, m, ops[0]), poolHash, TableAfter(t, ops[0], OutcomeOf(cfg, m, ops[0])),
                      ops[1..]))
  }

  /** Every answer of a run is one the map may give, and the media at its end model the map's
      last table. */
  ghost predicate RunAnswers(cfg: StoreConfig, m: Media<Sector>, poolHash: nat, t: Table, ops: seq<Op>)
    requires ValidConfig(cfg) && AllAllowed(cfg, m, poolHash, t, ops)
    decreases |ops|
  {
    if ops == [] then MapState(cfg, m, poolHash, t)
    else
      var out := OutcomeOf(cfg, m, ops[0]);
      MapAnswers(cfg, t, ops[0], out)
      && RunAnswers(cfg, MediaAfter(cfg, m, ops[0]), poolHash, TableAfter(t, ops[0], out), ops[1..])
  }

  /** Any run of puts, gets and deletes in which no put meets a hole before its stored key. */
  lemma {:induction false} RunRefinesMap(cfg: StoreConfig, m: Media<Sector>, poolHash: nat, t: Table, ops: seq<Op>)
    requires MapState(cfg, m, poolHash, t) && AllAllowed(cfg, m, poolHash, t, ops)
    ensures RunAnswers(cfg, m, poolHash, t, ops)
    decreases |ops|
  {
    if ops != [] {
      var out := OutcomeOf(cfg, m, ops[0]);
      StepRefinesMap(cfg, m, poolHash, t, ops[0]);
      RunRefinesMap(cfg, MediaAfter(cfg, m, ops[0]), poolHash, TableAfter(t, ops[0], out), ops[1..]);
    }
  }

  ghost predicate AllAsked(cfg: StoreConfig, m: Media<Sector>, poolHash: nat, t: Table, ops: seq<Op>)
    requires ValidConfig(cfg)
    decreases |ops|
  {
    ops == []
    || (Asked(cfg, poolHash, t, ops[0])
        && AllAsked(cfg, MediaAfter(cfg, m, ops[0]), poolHash, TableAfter(t, ops[0], OutcomeOf(cfg, m, ops[0])),
                    ops[1..]))
  }

  /** Without deletes there are no holes to meet. */
  lemma {:induction false} DeleteFreeRunMeetsNoHole(cfg: StoreConfig, m: Media<Sector>, poolHash: nat, t: Table,
                                                    ops: seq<Op>)
    requires MapState(cfg, m, poolHash, t) && Packed(cfg, m, poolHash) && AllAsked(cfg, m, poolHash, t, ops)
    requires forall i :: 0 <= i < |ops| ==> !ops[i].DeleteOp?
    ensures AllAllowed(cfg, m, poolHash, t, ops)
    decreases |ops|
  {
    if ops != [] {
      assert !ops[0].DeleteOp?;
      if ops[0].PutOp? {
        PackedHasNoHole(cfg, m, poolHash, IdOf(ops[0].r));
        PutKeepsPacked(cfg, m, poolHash, ops[0].r, ops[0].replace, ops[0].now);
      }
      StepRefinesMap(cfg, m, poolHash, t, ops[0]);
      DeleteFreeRunMeetsNoHole(cfg, MediaAfter(cfg, m, ops[0]), poolHash,
                               TableAfter(t, ops[0], OutcomeOf(cfg, m, ops[0])), ops[1..]);
    }
  }

  /** A newly formatted store, with only metadata mapped, models the empty map. */
  lemma FormattedModelsEmpty(cfg: StoreConfig, m: Media<Sector>, poolHash: nat)
    requires ValidConfig(cfg) && RoomForPairs(cfg, poolHash) && Sized(cfg, m)
    requires forall x :: x in m ==> x < cfg.dataStart
    ensures MapState(cfg, m, poolHash, map[]) && Packed(cfg, m, poolHash)
  {
    forall id, i: nat | InRun(cfg, poolHash, id) && i < MAX_COLLISION ensures !HoldsAt(m, Probe(cfg, id, i), id) {
      assert Probe(cfg, id, i) >= cfg.dataStart;
    }
  }

  // ---- Histories with deletes ------------------------------------------------------------

  datatype Change = PutChange(r: Request, replace: bool, now: nat) | DeleteChange(id: KeyId)

  function ChangedKey(c: Change): KeyId {
    if c.PutChange? then IdOf(c.r) else c.id
  }

  /** A change of a run's keys; a put must have all its vectors filled. */
  ghost predicate ValidChange(cfg: StoreConfig, poolHash: nat, m: Media<Sector>, c: Change)
    requires ValidConfig(cfg)
  {
    && InRun(cfg, poolHash, ChangedKey(c))
    && (c.PutChange? ==> ValidRequest(cfg.caps, c.r) && AllFilled(cfg, m, c.r, c.replace, c.now))
  }

  function AfterChange(cfg: StoreConfig, m: Media<Sector>, c: Change): Media<Sector>
    requires ValidConfig(cfg)
    requires c.PutChange? ==> ValidRequest(cfg.caps, c.r) && AllFilled(cfg, m, c.r, c.replace, c.now)
  {
    match c
    case PutChange(r, replace, now) => AfterPut(cfg, m, r, replace, now)
    case DeleteChange(id) => AfterDelete(cfg, m, id)
  }

  ghost predicate ValidHistory(cfg: StoreConfig, poolHash: nat, m: Media<Sector>, cs: seq<Change>)
    requires ValidConfig(cfg)
    decreases |cs|
  {
    cs == [] || (ValidChange(cfg, poolHash, m, cs[0])
                 && ValidHistory(cfg, poolHash, AfterChange(cfg, m, cs[0]), cs[1..]))
  }

  ghost function AfterHistory(cfg: StoreConfig, poolHash: nat, m: Media<Sector>, cs: seq<Change>): Media<Sector>
    requires ValidConfig(cfg) && ValidHistory(cfg, poolHash, m, cs)
    decreases |cs|
  {
    if cs == [] then m else AfterHistory(cfg, poolHash, AfterChange(cfg, m, cs[0]), cs[1..])
  }

  lemma ChangeKeepsSession(cfg: StoreConfig, m: Media<Sector>, poolHash: nat, c: Change)
    requires Session(cfg, m, poolHash) && ValidChange(cfg, poolHash, m, c)
    ensures Session(cfg, AfterChange(cfg, m, c), poolHash)
  {
    if c.PutChange? {
      PutKeepsInv(cfg, m, poolHash, c.r, c.replace, c.now);
    } else {
      DeleteKeepsInv(cfg, m, poolHash, c.id);
    }
  }

  /** Whatever puts and deletes of other keys a history holds, holes and duplicates included,
      a key denotes at its end the pair it denoted at its start. */
  lemma {:induction false} HistoryOfOthers(cfg: StoreConfig, poolHash: nat, m: Media<Sector>, cs: seq<Change>,
                                           id: KeyId)
    requires Session(cfg, m, poolHash) && ValidHistory(cfg, poolHash, m, cs) && InRun(cfg, poolHash, id)
    requires forall i :: 0 <= i < |cs| ==> ChangedKey(cs[i]) != id
    ensures Session(cfg, AfterHistory(cfg, poolHash, m, cs), poolHash)
    ensures Lookup(cfg, AfterHistory(cfg, poolHash, m, cs), id) == Lookup(cfg, m, id)
    decreases |cs|
  {
    if cs != [] {
      var c := cs[0];
      assert ChangedKey(c) != id;
      ChangeKeepsSession(cfg, m, poolHash, c);
      HistoryOfOthers(cfg, poolHash, AfterChange(cfg, m, c), cs[1..], id);
      if c.PutChange? {
        PutFrame(cfg, m, poolHash, c.r, c.replace, c.now, id);
      } else {
        DeleteFrame(cfg, m, poolHash, c.id, id);
      }
    }
  }

  /** After any history: a put that writes its pair whole, then any changes of other keys,
      then a get before the expiry returns the value that was put. */
  lemma GetReturnsLastPut(cfg: StoreConfig, poolHash: nat, m: Media<Sector>, r: Request, replace: bool, now: nat,
                          after: seq<Change>, len: nat, later: nat)
    requires Session(cfg, m, poolHash) && ValidRequest(cfg.caps, r) && InRun(cfg, poolHash, IdOf(r))
    requires WritesPairWhole(cfg, m, r, replace, now)
    requires ValidHistory(cfg, poolHash, AfterPut(cfg, m, r, replace, now), after)
    requires forall i :: 0 <= i < |after| ==> ChangedKey(after[i]) != IdOf(r)
    ensures var m' := AfterHistory(cfg, poolHash, AfterPut(cfg, m, r, replace, now), after);
            GetOf(cfg, m', IdOf(r), len, later)
            == if PairExpired(cfg, RequestPair(r), later) then GetFailed(ObjectNotFound)
               else Got(Take(RequestValue(r), Min(len, r.valueLen)), r.valueLen, r.expiry, r.genCount)
  {
    PutKeepsInv(cfg, m, poolHash, r, replace, now);
    PutThenLookup(cfg, m, poolHash, r, replace, now);
    HistoryOfOthers(cfg, poolHash, AfterPut(cfg, m, r, replace, now), after, IdOf(r));
  }
}
