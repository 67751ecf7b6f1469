/** The deletion thread's pass over the media (src/kv_pool_del_manager.cpp): it trims the pairs
    of one pool, or of all pools but the default, in batches. delete_all_keys of
    src/kv_store.cpp runs the same loops over every pair. */
module PoolDeletion {
  import opened Bits
  import opened HashFunc
  import opened RangeIterator

  datatype Target = OnePool(id: nat) | AllPools | Everything

  /** maxTrim in sectors. */
  datatype PassConfig = PassConfig(pools: PoolConfig, maxIovs: nat, maxTrim: nat)

  ghost predicate ValidPass(c: PassConfig, t: Target) {
    ValidPools(c.pools) && c.maxIovs > 0 && (t.OnePool? ==> t.id < c.pools.maxPools)
  }

  function TargetFilter(c: PassConfig, t: Target): Filter
    requires c.pools.poolBits < 64
  {
    if t.OnePool? then Filter(PoolMask(c.pools), HashOf(c.pools, t.id)) else Filter(0, 0)
  }

  /** Once ids are hashed a pass for some pools reads each reported pair's header. */
  predicate ReadsHeaders(c: PassConfig, t: Target) {
    !HashIsId(c.pools) && !t.Everything?
  }

  /** The checks made on a reported range: by the pool read from media once ids are hashed,
      otherwise by address. */
  predicate IsTarget(c: PassConfig, t: Target, e: Extent)
    requires c.pools.poolBits < 64
  {
    if t.Everything? then true
    else if ReadsHeaders(c, t) then (if t.OnePool? then e.pool == t.id else e.pool != 0)
    else t.OnePool? || BitAnd(e.start, PoolMask(c.pools)) != 0
  }

  function Targeted(c: PassConfig, t: Target): Extent -> bool
    requires c.pools.poolBits < 64
  {
    (e: Extent) => IsTarget(c, t, e)
  }

  /** The pairs the pass is for. */
  predicate Doomed(t: Target, e: Extent) {
    match t
    case OnePool(id) => e.pool == id
    case AllPools => e.pool != 0
    case Everything => true
  }

  function Doom(t: Target): Extent -> bool {
    (e: Extent) => Doomed(t, e)
  }

  function Spared(t: Target): Extent -> bool {
    (e: Extent) => !Doomed(t, e)
  }

  /** Device filter and checks together pick exactly the target's pairs. */
  lemma PassPicksTarget(c: PassConfig, es: seq<Extent>, t: Target)
    requires ValidPass(c, t) && Placed(c.pools, es)
    ensures Filtered(Ahead(es, TargetFilter(c, t), c.pools.dataStart), Targeted(c, t)) == Filtered(es, Doom(t))
  {
    var f := TargetFilter(c, t);
    forall i | 0 <= i < |es|
      ensures Doom(t)(es[i]) <==> From(f, c.pools.dataStart)(es[i]) && Targeted(c, t)(es[i])
    {
      var e := es[i];
      assert PlacedAt(c.pools, e);
      AndLowMask(e.start, c.pools.poolBits);
      if f.mask == 0 && t.OnePool? {
        OnlyOnePool(c.pools, e.start, e.pool, t.id);
      }
    }
    FilteredTwice(es, From(f, c.pools.dataStart), Targeted(c, t), Doom(t));
  }

  /** Without pool bits there is one pool, or ids are read from media. */
  lemma OnlyOnePool(c: PoolConfig, start: nat, a: nat, b: nat)
    requires PoolMask(c) == 0 && a < c.maxPools && b < c.maxPools
    ensures HashIsId(c) ==> a == b
  {
  }

  // ---- What is trimmed -------------------------------------------------------------------

  /** The pairs left when those at the given addresses are gone. */
  function Keep(gone: set<nat>): Extent -> bool {
    (e: Extent) => e.start !in gone
  }

  function Starts(es: seq<Extent>): set<nat> {
    set i | 0 <= i < |es| :: es[i].start
  }

  /** Trims behind the cursor do not change what lies ahead of it. */
  lemma TrimsBehind(es: seq<Extent>, gone: set<nat>, f: Filter, cursor: nat)
    requires forall x :: x in gone ==> x < cursor
    ensures Ahead(Filtered(es, Keep(gone)), f, cursor) == Ahead(es, f, cursor)
  {
    FilteredTwice(es, Keep(gone), From(f, cursor), From(f, cursor));
  }

  /** Two sets of trims one after the other. */
  lemma TrimsAdd(es: seq<Extent>, a: seq<Extent>, b: seq<Extent>)
    ensures Filtered(Filtered(es, Keep(Starts(a))), Keep(Starts(b))) == Filtered(es, Keep(Starts(a + b)))
  {
    assert Starts(a + b) == Starts(a) + Starts(b) by {
      assert forall i :: 0 <= i < |a| ==> (a + b)[i] == a[i];
      assert forall i :: 0 <= i < |b| ==> (a + b)[|a| + i] == b[i];
    }
    FilteredTwice(es, Keep(Starts(a)), Keep(Starts(b)), Keep(Starts(a + b)));
  }

  /** When all the target's pairs are trimmed, the others remain. */
  lemma TrimmedTarget(es: seq<Extent>, t: Target)
    requires Spaced(es)
    ensures Filtered(es, Keep(Starts(Filtered(es, Doom(t))))) == Filtered(es, Spared(t))
  {
    var doomed := Filtered(es, Doom(t));
    FilteredMembers(es, Doom(t));
    forall i | 0 <= i < |es| ensures Keep(Starts(doomed))(es[i]) <==> Spared(t)(es[i]) {
      assert forall j :: 0 <= j < |es| && es[j].start == es[i].start ==> j == i;
      if Doomed(t, es[i]) {
        MemberKept(es, Doom(t), i);
      }
    }
    FilteredAgree(es, Keep(Starts(doomed)), Spared(t));
  }

  lemma {:induction false} MemberKept(es: seq<Extent>, p: Extent -> bool, i: nat)
    requires i < |es| && p(es[i])
    ensures es[i] in Filtered(es, p)
  {
    if i > 0 {
      MemberKept(es[1..], p, i - 1);
    }
  }

  // ---- What the pass reports --------------------------------------------------------------

  /** Vectors filled but not issued, and the return code so far. */
  datatype PassState = PassState(pending: nat, ret: int)

  /** One reported range: reading its header overwrites the return code, a full vector array
      is issued and sets it to success. */
  function Take(c: PassConfig, t: Target, s: PassState, e: Extent): PassState
    requires c.pools.poolBits < 64
  {
    var s' := if ReadsHeaders(c, t) then s.(ret := if e.expired then 1 else 0) else s;
    if !IsTarget(c, t, e) then s'
    else if s'.pending + 1 == c.maxIovs then PassState(0, 0)
    else s'.(pending := s'.pending + 1)
  }

  function TakeAll(c: PassConfig, t: Target, s: PassState, es: seq<Extent>): PassState
    requires c.pools.poolBits < 64
    decreases |es|
  {
    if es == [] then s else TakeAll(c, t, Take(c, t, s, es[0]), es[1..])
  }

  /** What a pass returns whose trims all succeed; maxRanges is the iterator's batch size. */
  function PassReturn(c: PassConfig, t: Target, maxRanges: nat, sel: seq<Extent>, pending: nat): int
    requires c.pools.poolBits < 64 && maxRanges > 0
    decreases |sel|
  {
    var n := if |sel| < maxRanges then |sel| else maxRanges;
    var s := TakeAll(c, t, PassState(pending, n), sel[..n]);
    if n < maxRanges then (if s.pending > 0 then 0 else s.ret)
    else PassReturn(c, t, maxRanges, sel[n..], s.pending)
  }

  lemma ModAbsorbs(a: nat, b: nat, m: nat)
    requires m > 0
    ensures (a % m + b) % m == (a + b) % m
  {
    var q, r := a / m, (a % m + b) % m;
    var k := (a % m + b) / m;
    assert a + b == (q + k) * m + r;
    DivModUnique(a + b, m, q + k, r);
  }

  /** Without headers to read, the array's filling is the number of targets modulo its
      size, and the return code is lost to success as soon as it has been full once. */
  lemma {:induction false} TakeAllCounts(c: PassConfig, t: Target, s: PassState, es: seq<Extent>)
    requires c.pools.poolBits < 64 && !ReadsHeaders(c, t) && s.pending < c.maxIovs
    ensures var n := s.pending + |Filtered(es, Targeted(c, t))|;
            TakeAll(c, t, s, es) == PassState(n % c.maxIovs, if n >= c.maxIovs then 0 else s.ret)
    decreases |es|
  {
    if es == [] {
      DivModUnique(s.pending, c.maxIovs, 0, s.pending);
    } else {
      TakeAllCounts(c, t, Take(c, t, s, es[0]), es[1..]);
      var n := s.pending + |Filtered(es, Targeted(c, t))|;
      if IsTarget(c, t, es[0]) && s.pending + 1 == c.maxIovs {
        ModAbsorbs(c.maxIovs, n - c.maxIovs, c.maxIovs);
        DivModUnique(c.maxIovs, c.maxIovs, 1, 0);
      }
    }
  }

  /** The ranges of the last iterator call, the one that comes back short. */
  function LastBatch(sel: seq<Extent>, maxRanges: nat): seq<Extent>
    requires maxRanges > 0
    decreases |sel|
  {
    if |sel| < maxRanges then sel else LastBatch(sel[maxRanges..], maxRanges)
  }

  /** Without headers to read, a pass that trimmed everything it should still reports a
      failure exactly when its last batch is not empty and holds no target, and no vector was
      waiting then: the code it returns is that batch's range count. */
  lemma {:induction false} FalseFailureIff(c: PassConfig, t: Target, maxRanges: nat, sel: seq<Extent>, pending: nat)
    requires c.pools.poolBits < 64 && !ReadsHeaders(c, t) && maxRanges > 0 && pending < c.maxIovs
    ensures PassReturn(c, t, maxRanges, sel, pending) != 0 <==>
            LastBatch(sel, maxRanges) != [] && Filtered(LastBatch(sel, maxRanges), Targeted(c, t)) == []
            && (pending + |Filtered(sel, Targeted(c, t))|) % c.maxIovs == 0
    decreases |sel|
  {
    if |sel| < maxRanges {
      LastBatchFails(c, t, maxRanges, sel, pending);
    } else {
      var p := Targeted(c, t);
      var batch, rest := sel[..maxRanges], sel[maxRanges..];
      var s := TakeAll(c, t, PassState(pending, maxRanges), batch);
      TakeAllCounts(c, t, PassState(pending, maxRanges), batch);
      assert batch + rest == sel;
      FilteredAppend(batch, rest, p);
      FalseFailureIff(c, t, maxRanges, rest, s.pending);
      ModAbsorbs(pending + |Filtered(batch, p)|, |Filtered(rest, p)|, c.maxIovs);
    }
  }

  lemma LastBatchFails(c: PassConfig, t: Target, maxRanges: nat, sel: seq<Extent>, pending: nat)
    requires c.pools.poolBits < 64 && !ReadsHeaders(c, t) && pending < c.maxIovs && |sel| < maxRanges
    ensures PassReturn(c, t, maxRanges, sel, pending) != 0 <==>
            sel != [] && Filtered(sel, Targeted(c, t)) == []
            && (pending + |Filtered(sel, Targeted(c, t))|) % c.maxIovs == 0
  {
    TakeAllCounts(c, t, PassState(pending, |sel|), sel);
    assert sel[..|sel|] == sel;
    var k := pending + |Filtered(sel, Targeted(c, t))|;
    if k < c.maxIovs {
      DivModUnique(k, c.maxIovs, 0, k);
    }
  }

  lemma FillsUp(a: nat, b: nat, m: nat)
    requires m > 0 && a + 1 == m
    ensures b % m == (a + (1 + b)) % m
  {
    ModAbsorbs(m, b, m);
    DivModUnique(m, m, 1, 0);
  }

  /** The code that reading a header leaves, unless the range is a target that fills the array. */
  function CodeOf(c: PassConfig, t: Target, e: Extent): int
    requires c.pools.poolBits < 64
  {
    if !IsTarget(c, t, e) && e.expired then 1 else 0
  }

  /** With headers to read, the code after some ranges is that of the last one: whether it has
      expired, unless it is a target that fills the array. */
  lemma {:induction false} TakeAllReads(c: PassConfig, t: Target, s: PassState, es: seq<Extent>)
    requires c.pools.poolBits < 64 && ReadsHeaders(c, t) && s.pending < c.maxIovs
    ensures var s' := TakeAll(c, t, s, es);
            && s'.pending == (s.pending + |Filtered(es, Targeted(c, t))|) % c.maxIovs
            && (s'.pending == 0 ==> s'.ret == if es == [] then s.ret else CodeOf(c, t, es[|es| - 1]))
    decreases |es|
  {
    if es == [] {
      DivModUnique(s.pending, c.maxIovs, 0, s.pending);
    } else {
      TakeAllReads(c, t, Take(c, t, s, es[0]), es[1..]);
      if IsTarget(c, t, es[0]) && s.pending + 1 == c.maxIovs {
        FillsUp(s.pending, |Filtered(es[1..], Targeted(c, t))|, c.maxIovs);
      }
    }
  }

  /** A pass that reads headers and trimmed everything it should still reports a failure exactly
      when the last range of its last batch is no target and has expired, and no vector was
      waiting then: the code it returns is the one left by reading that range's header. */
  lemma {:induction false} FalseFailureReadingIff(c: PassConfig, t: Target, maxRanges: nat, sel: seq<Extent>,
                                                  pending: nat)
    requires c.pools.poolBits < 64 && ReadsHeaders(c, t) && maxRanges > 0 && pending < c.maxIovs
    ensures PassReturn(c, t, maxRanges, sel, pending) != 0 <==>
            LastBatch(sel, maxRanges) != []
            && (var e := LastBatch(sel, maxRanges)[|LastBatch(sel, maxRanges)| - 1]; !IsTarget(c, t, e) && e.expired)
            && (pending + |Filtered(sel, Targeted(c, t))|) % c.maxIovs == 0
    decreases |sel|
  {
    var p, n := Targeted(c, t), if |sel| < maxRanges then |sel| else maxRanges;
    var s := TakeAll(c, t, PassState(pending, n), sel[..n]);
    TakeAllReads(c, t, PassState(pending, n), sel[..n]);
    assert sel[..n] + sel[n..] == sel;
    FilteredAppend(sel[..n], sel[n..], p);
    if |sel| < maxRanges {
      assert sel[..n] == sel;
    } else {
      FalseFailureReadingIff(c, t, maxRanges, sel[n..], s.pending);
      ModAbsorbs(pending + |Filtered(sel[..n], p)|, |Filtered(sel[n..], p)|, c.maxIovs);
    }
  }

  /** The pass over one pool then, and the one over everything, never report a failure they did
      not have. */
  lemma OtherPassesReportSuccess(c: PassConfig, t: Target, maxRanges: nat, sel: seq<Extent>)
    requires c.pools.poolBits < 64 && !ReadsHeaders(c, t) && !t.AllPools? && maxRanges > 0 && c.maxIovs > 0
    ensures PassReturn(c, t, maxRanges, sel, 0) == 0
  {
    FalseFailureIff(c, t, maxRanges, sel, 0);
    FilteredAll(LastBatch(sel, maxRanges), Targeted(c, t));
  }

  lemma {:induction false} LastBatchIsRemainder(sel: seq<Extent>, maxRanges: nat)
    requires maxRanges > 0
    ensures |LastBatch(sel, maxRanges)| == |sel| % maxRanges
    decreases |sel|
  {
    if |sel| >= maxRanges {
      LastBatchIsRemainder(sel[maxRanges..], maxRanges);
      DivModUnique(|sel|, maxRanges, (|sel| - maxRanges) / maxRanges + 1, (|sel| - maxRanges) % maxRanges);
    } else {
      DivModUnique(|sel|, maxRanges, 0, |sel|);
    }
  }

  lemma {:induction false} LastBatchIsSuffix(sel: seq<Extent>, maxRanges: nat)
    requires maxRanges > 0
    ensures var n := |LastBatch(sel, maxRanges)|; n <= |sel| && LastBatch(sel, maxRanges) == sel[|sel| - n..]
    decreases |sel|
  {
    if |sel| >= maxRanges {
      LastBatchIsSuffix(sel[maxRanges..], maxRanges);
      var n := |LastBatch(sel, maxRanges)|;
      assert sel[maxRanges..][|sel| - maxRanges - n..] == sel[|sel| - n..];
    }
  }

  /** What a delete-all pass leaves: it meets all of it again, and none is a target. */
  lemma LeftIsSpared(c: PassConfig, es: seq<Extent>, maxRanges: nat)
    requires ValidPass(c, AllPools) && maxRanges > 0 && Placed(c.pools, es)
    ensures var left := Filtered(es, Spared(AllPools));
            && Ahead(left, TargetFilter(c, AllPools), c.pools.dataStart) == left
            && Filtered(left, Targeted(c, AllPools)) == []
            && forall i :: 0 <= i < |left| ==> !IsTarget(c, AllPools, left[i])
  {
    var left := Filtered(es, Spared(AllPools));
    FilteredMembers(es, Spared(AllPools));
    forall i | 0 <= i < |left| ensures PlacedAt(c.pools, left[i]) && !IsTarget(c, AllPools, left[i]) {
      var j :| 0 <= j < |es| && es[j] == left[i];
      assert PlacedAt(c.pools, es[j]);
    }
    FilteredAll(left, From(TargetFilter(c, AllPools), c.pools.dataStart));
    FilteredNone(left, Targeted(c, AllPools));
  }

  /** The thread clears no pool after a code other than success and passes again. Once only the
      default pool has pairs, every delete-all pass reports a failure unless their number is a
      multiple of the batch size, and, where headers are read, unless the last of them has not
      expired; the marked pools then stay marked. */
  lemma RepeatedPassFailsIff(c: PassConfig, maxRanges: nat, es: seq<Extent>)
    requires ValidPass(c, AllPools) && maxRanges > 0 && Placed(c.pools, es)
    ensures var left := Filtered(es, Spared(AllPools));
            PassReturn(c, AllPools, maxRanges, Ahead(left, TargetFilter(c, AllPools), c.pools.dataStart), 0) != 0
            <==> |left| % maxRanges != 0 && (HashIsId(c.pools) || left[|left| - 1].expired)
  {
    var left := Filtered(es, Spared(AllPools));
    LeftIsSpared(c, es, maxRanges);
    PassOverSpared(c, maxRanges, left);
  }

  lemma PassOverSpared(c: PassConfig, maxRanges: nat, left: seq<Extent>)
    requires c.pools.poolBits < 64 && c.maxIovs > 0 && maxRanges > 0
    requires forall i :: 0 <= i < |left| ==> !IsTarget(c, AllPools, left[i])
    ensures |left| % maxRanges != 0 ==> left != []
    ensures PassReturn(c, AllPools, maxRanges, left, 0) != 0 <==>
            |left| % maxRanges != 0 && (HashIsId(c.pools) || left[|left| - 1].expired)
  {
    LastBatchIsRemainder(left, maxRanges);
    LastBatchIsSuffix(left, maxRanges);
    FilteredNone(left, Targeted(c, AllPools));
    FilteredNone(LastBatch(left, maxRanges), Targeted(c, AllPools));
    DivModUnique(0, c.maxIovs, 0, 0);
    if HashIsId(c.pools) {
      FalseFailureIff(c, AllPools, maxRanges, left, 0);
    } else {
      FalseFailureReadingIff(c, AllPools, maxRanges, left, 0);
    }
  }

  // ---- The pass ---------------------------------------------------------------------------

  class PairMedia {
    const dev: RangeDevice
    /** Trims issued so far, in order. */
    ghost var trimmed: seq<Extent>

    constructor (dev: RangeDevice)
      ensures this.dev == dev && trimmed == []
    {
      this.dev := dev;
      trimmed := [];
    }

    /** batch_delete: one atomic vector of trims, each of a whole pair. */
    method BatchDelete(iovec: seq<Extent>) returns (ok: bool)
      requires dev.Valid()
      modifies this, dev
      ensures dev.Valid()
      ensures ok ==> dev.extents == Filtered(old(dev.extents), Keep(Starts(iovec))) && trimmed == old(trimmed) + iovec
      ensures !ok ==> dev.extents == old(dev.extents) && trimmed == old(trimmed)
    {
      ok := *;
      if ok {
        FilteredSpaced(dev.extents, Keep(Starts(iovec)));
        dev.extents := Filtered(dev.extents, Keep(Starts(iovec)));
        trimmed := trimmed + iovec;
      }
    }
  }

  class PoolDelManager {
    const c: PassConfig
    const media: PairMedia
    const iovec: array<Extent>

    ghost predicate Valid()
      reads this, media, media.dev
    {
      ValidPools(c.pools) && c.maxIovs > 0 && iovec.Length == c.maxIovs && media.dev.Valid()
    }

    constructor (c: PassConfig, media: PairMedia)
      requires ValidPools(c.pools) && c.maxIovs > 0 && media.dev.Valid()
      ensures Valid() && this.c == c && this.media == media && fresh(iovec)
    {
      this.c := c;
      this.media := media;
      iovec := new Extent[c.maxIovs](_ => Extent(0, 0, 0, false));
    }

    /** Since the pass began on orig, exactly the trims issued since are missing. */
    ghost predicate Trimmed(orig: seq<Extent>, base: nat)
      reads media, media.dev
    {
      base <= |media.trimmed| && media.dev.extents == Filtered(orig, Keep(Starts(media.trimmed[base..])))
    }

    /** The first n vectors go to the device. */
    method Flush(n: nat, ghost orig: seq<Extent>, ghost base: nat) returns (ok: bool)
      requires Valid() && n <= c.maxIovs && Trimmed(orig, base)
      modifies media, media.dev
      ensures Valid() && Trimmed(orig, base)
      ensures media.trimmed == if ok then old(media.trimmed) + iovec[..n] else old(media.trimmed)
    {
      ghost var before := media.trimmed;
      ok := media.BatchDelete(iovec[..n]);
      if ok {
        TrimsAdd(orig, before[base..], iovec[..n]);
        assert media.trimmed[base..] == before[base..] + iovec[..n];
      }
    }

    /** Trims issued and trims waiting in the array. */
    ghost function Queued(num: nat): seq<Extent>
      requires num <= iovec.Length
      reads media, iovec
    {
      media.trimmed + iovec[..num]
    }

    /** One more trim; a full array is issued. */
    method AddVector(e: Extent, num: nat, ghost orig: seq<Extent>, ghost base: nat) returns (n: nat, ok: bool)
      requires Valid() && num < c.maxIovs && Trimmed(orig, base)
      modifies media, media.dev, iovec
      ensures Valid() && Trimmed(orig, base)
      ensures ok ==> n == (if num + 1 == c.maxIovs then 0 else num + 1)
                     && Queued(n) == old(Queued(num)) + [e]
      ensures !ok ==> media.trimmed == old(media.trimmed)
    {
      iovec[num] := e;
      n, ok := num + 1, true;
      assert iovec[..n] == old(iovec[..num]) + [e];
      ghost var before := media.trimmed;
      assert before + iovec[..n] == old(media.trimmed + iovec[..num]) + [e];
      if n == c.maxIovs {
        ok := Flush(n, orig, base);
        if ok {
          n := 0;
          assert media.trimmed + iovec[..0] == media.trimmed;
        }
      }
    }

    /** What the inner loop does with one range. */
    method HandleRange(t: Target, e: Extent, num: nat, ret: int, ghost orig: seq<Extent>, ghost base: nat)
      returns (n: nat, ret': int)
      requires Valid() && num < c.maxIovs && Trimmed(orig, base) && ret >= 0
      modifies media, media.dev, iovec
      ensures Valid() && Trimmed(orig, base)
      ensures ret' >= 0 ==> n < c.maxIovs && PassState(n, ret') == Take(c, t, PassState(num, ret), e)
                            && Queued(n) == old(Queued(num)) + (if IsTarget(c, t, e) then [e] else [])
      ensures ret' < 0 ==> media.trimmed == old(media.trimmed)
    {
      n, ret' := num, ret;
      if ReadsHeaders(c, t) {
        ret' := if e.expired then 1 else 0;
      }
      if IsTarget(c, t, e) {
        if e.length > c.maxTrim {
          return n, -1;
        }
        var ok;
        n, ok := AddVector(e, n, orig, base);
        if !ok {
          return n, -1;
        }
        if n == 0 {
          ret' := 0;
        }
      }
    }

    /** The inner loop over one batch of ranges. */
    method ProcessRanges(t: Target, ranges: seq<Extent>, numIovs: nat, ghost orig: seq<Extent>, ghost base: nat)
      returns (n: nat, ret: int)
      requires Valid() && numIovs < c.maxIovs && Trimmed(orig, base)
      modifies media, media.dev, iovec
      ensures Valid() && Trimmed(orig, base)
      ensures ret >= 0 ==> n < c.maxIovs && PassState(n, ret) == TakeAll(c, t, PassState(numIovs, |ranges|), ranges)
      ensures ret >= 0 ==> Queued(n) == old(Queued(numIovs)) + Filtered(ranges, Targeted(c, t))
      ensures ret < 0 ==> media.trimmed <= old(Queued(numIovs)) + Filtered(ranges, Targeted(c, t))
    {
      n, ret := numIovs, |ranges|;
      var k := 0;
      ghost var all := Queued(numIovs) + Filtered(ranges, Targeted(c, t));
      assert ranges[0..] == ranges;
      while k < |ranges|
        invariant Valid() && Trimmed(orig, base) && k <= |ranges| && n < c.maxIovs && ret >= 0
        invariant TakeAll(c, t, PassState(n, ret), ranges[k..]) == TakeAll(c, t, PassState(numIovs, |ranges|), ranges)
        invariant Queued(n) + Filtered(ranges[k..], Targeted(c, t)) == all
      {
        var e := ranges[k];
        RangeTaken(c, t, PassState(n, ret), ranges, k);
        ghost var queued, rest := Queued(n), Filtered(ranges[k + 1..], Targeted(c, t));
        OneMore(queued, e, rest);
        StaysPrefix(queued, Filtered(ranges[k..], Targeted(c, t)), all);
        n, ret := HandleRange(t, e, n, ret, orig, base);
        if ret < 0 {
          return;
        }
        k := k + 1;
      }
    }

    /** Inside a pass that is to issue the trims `total` in all, after `base` older ones: what
        was queued since lies behind the cursor, and what lies ahead completes the total. */
    ghost predicate InPass(t: Target, orig: seq<Extent>, base: nat, total: seq<Extent>, cursor: nat, num: nat)
      requires Valid()
      reads this, media, media.dev, iovec
    {
      && Trimmed(orig, base) && num < c.maxIovs
      && AllBefore(Queued(num)[base..], cursor)
      && Queued(num) + Filtered(Ahead(orig, TargetFilter(c, t), cursor), Targeted(c, t)) == total
    }

    /** What the device reports from the cursor on has not been touched. */
    lemma AheadUntouched(t: Target, orig: seq<Extent>, base: nat, total: seq<Extent>, cursor: nat, num: nat, from: nat)
      requires Valid() && InPass(t, orig, base, total, cursor, num) && from >= cursor
      ensures Ahead(media.dev.extents, TargetFilter(c, t), from) == Ahead(orig, TargetFilter(c, t), from)
    {
      var since := media.trimmed[base..];
      assert Queued(num)[base..] == since + iovec[..num];
      assert forall i :: 0 <= i < |since| ==> since[i] == Queued(num)[base..][i];
      TrimsBehind(orig, Starts(since), TargetFilter(c, t), from);
    }

    /** After the last batch: what is left in the array goes out, which sets the return code. */
    method FlushRest(t: Target, num: nat, ret: int, ghost orig: seq<Extent>, ghost base: nat, ghost total: seq<Extent>,
                     ghost cursor: nat)
      returns (ret': int)
      requires Valid() && InPass(t, orig, base, total, cursor, num) && ret >= 0
      modifies media, media.dev
      ensures Valid()
      ensures ret' >= 0 ==> InPass(t, orig, base, total, cursor, 0) && ret' == if num > 0 then 0 else ret
      ensures ret' < 0 ==> Trimmed(orig, base) && media.trimmed <= total
    {
      ret' := ret;
      assert Queued(num) <= total;
      if num > 0 {
        var ok := Flush(num, orig, base);
        ret' := if ok then 0 else -1;
        assert Queued(0) == media.trimmed;
      }
    }

    /** One turn of the outer loop. */
    method Turn(t: Target, cursor: nat, num: nat, ghost orig: seq<Extent>, ghost base: nat, ghost total: seq<Extent>)
      returns (cursor': nat, num': nat, ret: int, last: bool)
      requires Valid() && InPass(t, orig, base, total, cursor, num)
      modifies media, media.dev, iovec
      ensures Valid()
      ensures ret >= 0 ==> InPass(t, orig, base, total, cursor', num')
      ensures ret < 0 ==> Trimmed(orig, base) && media.trimmed <= total
      ensures ret >= 0 && last ==> num' == 0 && Ahead(orig, TargetFilter(c, t), cursor') == []
      ensures ret >= 0 ==> PassReturn(c, t, media.dev.maxRanges, Ahead(orig, TargetFilter(c, t), cursor), num)
                           == if last then ret
                              else PassReturn(c, t, media.dev.maxRanges, Ahead(orig, TargetFilter(c, t), cursor'), num')
      ensures ret >= 0 && !last ==>
                |Ahead(orig, TargetFilter(c, t), cursor')| < |Ahead(orig, TargetFilter(c, t), cursor)|
    {
      ghost var f := TargetFilter(c, t);
      AheadUntouched(t, orig, base, total, cursor, num, cursor);
      var ranges;
      ranges, cursor' := media.dev.NextRanges(TargetFilter(c, t), cursor);
      AheadUntouched(t, orig, base, total, cursor, num, cursor');
      ghost var rest := Ahead(orig, f, cursor');
      TurnReturns(c, t, media.dev.maxRanges, ranges, rest, num);
      FilteredAppend(ranges, rest, Targeted(c, t));
      ghost var queued := Queued(num);
      QueueGrows(queued, ranges, Targeted(c, t), base, cursor, cursor', Filtered(rest, Targeted(c, t)));
      num', ret := ProcessRanges(t, ranges, num, orig, base);
      last := |ranges| < media.dev.maxRanges;
      if ret >= 0 && last {
        ret := FlushRest(t, num', ret, orig, base, total, cursor');
        num' := 0;
      }
    }

    /** delete_pool of the deletion manager. When it reports no error every pair of the target
        has been trimmed, each once and in address order, and no other; whatever the batch size
        and the vector limit. After an error a leading part of those trims was made. */
    method DeletePool(t: Target) returns (ret: int)
      requires Valid() && ValidPass(c, t) && Placed(c.pools, media.dev.extents)
      modifies media, media.dev, iovec
      ensures Valid()
      ensures ret >= 0 ==>
                && media.dev.extents == Filtered(old(media.dev.extents), Spared(t))
                && media.trimmed == old(media.trimmed) + Filtered(old(media.dev.extents), Doom(t))
                && ret == PassReturn(c, t, media.dev.maxRanges,
                                     Ahead(old(media.dev.extents), TargetFilter(c, t), c.pools.dataStart), 0)
      ensures ret < 0 ==>
                old(media.trimmed) <= media.trimmed <= old(media.trimmed) + Filtered(old(media.dev.extents), Doom(t))
                && media.dev.extents == Filtered(old(media.dev.extents),
                                                 Keep(Starts(media.trimmed[|old(media.trimmed)|..])))
    {
      ghost var orig, base := media.dev.extents, |media.trimmed|;
      ghost var f, total := TargetFilter(c, t), media.trimmed + Filtered(orig, Doom(t));
      PassPicksTarget(c, orig, t);
      TrimmedTarget(orig, t);
      NothingGone(orig);
      var cursor, num, last := c.pools.dataStart, 0, false;
      assert media.trimmed[base..] == [];
      assert Queued(0) == media.trimmed;
      ret := 0;
      while !last
        invariant Valid() && InPass(t, orig, base, total, cursor, num) && ret >= 0
        invariant last ==> num == 0 && Ahead(orig, f, cursor) == []
        invariant PassReturn(c, t, media.dev.maxRanges, Ahead(orig, f, c.pools.dataStart), 0)
               == if last then ret else PassReturn(c, t, media.dev.maxRanges, Ahead(orig, f, cursor), num)
        decreases !last, |Ahead(orig, f, cursor)|
      {
        cursor, num, ret, last := Turn(t, cursor, num, orig, base, total);
        if ret < 0 {
          return;
        }
      }
      assert Queued(0) + [] == media.trimmed;
      assert media.trimmed[base..] == Filtered(orig, Doom(t));
    }
  }

  predicate AllBefore(es: seq<Extent>, cursor: nat) {
    forall i :: 0 <= i < |es| ==> es[i].start < cursor
  }

  /** The queue after a batch: longer by the batch's targets, all behind the new cursor. */
  lemma QueueGrows(queued: seq<Extent>, ranges: seq<Extent>, p: Extent -> bool, base: nat, cursor: nat, cursor': nat,
                   rest: seq<Extent>)
    requires base <= |queued| && AllBefore(queued[base..], cursor) && AllBefore(ranges, cursor') && cursor <= cursor'
    ensures AllBefore((queued + Filtered(ranges, p))[base..], cursor')
    ensures queued + (Filtered(ranges, p) + rest) == (queued + Filtered(ranges, p)) + rest
  {
    var picked := Filtered(ranges, p);
    FilteredKeeps(ranges, p, (e: Extent) => e.start < cursor');
    assert AllBefore(picked, cursor');
    assert (queued + picked)[base..] == queued[base..] + picked;
  }

  /** A batch of ranges and what follows it, as the return code sees them. */
  lemma TurnReturns(c: PassConfig, t: Target, maxRanges: nat, ranges: seq<Extent>, rest: seq<Extent>, num: nat)
    requires c.pools.poolBits < 64 && |ranges| <= maxRanges && maxRanges > 0 && (|ranges| < maxRanges ==> rest == [])
    ensures var s := TakeAll(c, t, PassState(num, |ranges|), ranges);
            PassReturn(c, t, maxRanges, ranges + rest, num)
            == if |ranges| < maxRanges then (if s.pending > 0 then 0 else s.ret)
              else PassReturn(c, t, maxRanges, rest, s.pending)
  {
    assert (ranges + rest)[..|ranges|] == ranges && (ranges + rest)[|ranges|..] == rest;
  }

  lemma RangeTaken(c: PassConfig, t: Target, s: PassState, ranges: seq<Extent>, k: nat)
    requires c.pools.poolBits < 64 && k < |ranges|
    ensures TakeAll(c, t, s, ranges[k..]) == TakeAll(c, t, Take(c, t, s, ranges[k]), ranges[k + 1..])
    ensures Filtered(ranges[k..], Targeted(c, t))
            == (if IsTarget(c, t, ranges[k]) then [ranges[k]] else []) + Filtered(ranges[k + 1..], Targeted(c, t))
  {
    assert ranges[k..][1..] == ranges[k + 1..];
  }

  lemma StaysPrefix(a: seq<Extent>, b: seq<Extent>, all: seq<Extent>)
    requires a + b == all
    ensures a <= all
  {
  }

  lemma OneMore(a: seq<Extent>, e: Extent, rest: seq<Extent>)
    ensures a + ([e] + rest) == (a + [e]) + rest && a + ([] + rest) == a + rest && a + [] == a
  {
  }

  lemma NothingGone(es: seq<Extent>)
    ensures Filtered(es, Keep(Starts([]))) == es
  {
    FilteredAll(es, Keep(Starts([])));
  }
}
