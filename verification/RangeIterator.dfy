/** Iteration over the stored pairs (src/kv_iterator.cpp). The device hands out the contiguous
    runs of mapped sectors in address order, a batch at a time from a cursor, optionally only
    those whose address matches a filter. */
module RangeIterator {
  import opened Bits
  import opened HashFunc

  /** One pair on media: its sectors, the pool its header names, whether it has expired. */
  datatype Extent = Extent(start: nat, length: nat, pool: nat, expired: bool)

  predicate Inside(e: Extent, x: nat) {
    e.start <= x < e.start + e.length
  }

  /** Pairs in address order, no two of them overlapping or adjacent. */
  predicate Spaced(es: seq<Extent>) {
    && (forall i :: 0 <= i < |es| ==> es[i].length > 0)
    && (forall i, j :: 0 <= i < j < |es| ==> es[i].start + es[i].length < es[j].start)
  }

  predicate Mapped(es: seq<Extent>, x: nat) {
    exists i :: 0 <= i < |es| && Inside(es[i], x)
  }

  /** A maximal contiguous run of mapped sectors. */
  ghost predicate IsRun(es: seq<Extent>, start: nat, length: nat) {
    && length > 0 && (forall x: nat :: start <= x < start + length ==> Mapped(es, x))
    && !Mapped(es, start + length) && (start > 0 ==> !Mapped(es, start - 1))
  }

  /** The next sector after a mapped one is mapped exactly when it is in the same pair. */
  lemma StaysInPair(es: seq<Extent>, i: nat, x: nat)
    requires Spaced(es) && i < |es| && Inside(es[i], x)
    ensures Mapped(es, x + 1) <==> Inside(es[i], x + 1)
    ensures x > 0 ==> (Mapped(es, x - 1) <==> Inside(es[i], x - 1))
  {
    if Mapped(es, x + 1) {
      var j :| 0 <= j < |es| && Inside(es[j], x + 1);
    }
    if x > 0 && Mapped(es, x - 1) {
      var j :| 0 <= j < |es| && Inside(es[j], x - 1);
    }
  }

  lemma {:induction false} RunInPair(es: seq<Extent>, i: nat, start: nat, n: nat)
    requires Spaced(es) && i < |es| && Inside(es[i], start)
    requires forall x: nat :: start <= x <= start + n ==> Mapped(es, x)
    ensures Inside(es[i], start + n)
    decreases n
  {
    if n > 0 {
      RunInPair(es, i, start, n - 1);
      StaysInPair(es, i, start + n - 1);
    }
  }

  /** The runs of the media are exactly the pairs: what the device reports is one range a pair. */
  lemma RunsArePairs(es: seq<Extent>, start: nat, length: nat)
    requires Spaced(es)
    ensures IsRun(es, start, length) <==> exists i :: 0 <= i < |es| && es[i].start == start && es[i].length == length
  {
    if IsRun(es, start, length) {
      assert Mapped(es, start);
      var i :| 0 <= i < |es| && Inside(es[i], start);
      RunInPair(es, i, start, length - 1);
      StaysInPair(es, i, start + (length - 1));
      StaysInPair(es, i, start);
    }
    if exists i :: 0 <= i < |es| && es[i].start == start && es[i].length == length {
      var i :| 0 <= i < |es| && es[i].start == start && es[i].length == length;
      assert forall x: nat :: start <= x < start + length ==> Inside(es[i], x);
      StaysInPair(es, i, start);
      StaysInPair(es, i, start + length - 1);
    }
  }

  /** One pair at most to a slot, none reaching its slot's last sector: the pairs are spaced. */
  lemma OnePairPerSlotIsSpaced(es: seq<Extent>, slot: nat)
    requires slot > 0
    requires forall i :: 0 <= i < |es| ==> es[i].length > 0 && es[i].start % slot + es[i].length < slot
    requires forall i, j :: 0 <= i < j < |es| ==> es[i].start / slot < es[j].start / slot
    ensures Spaced(es)
  {
    forall i, j | 0 <= i < j < |es| ensures es[i].start + es[i].length < es[j].start {
      LaterSlotIsFar(es[i].start, es[j].start, es[i].length, slot);
    }
  }

  lemma LaterSlotIsFar(x: nat, y: nat, length: nat, slot: nat)
    requires slot > 0 && x % slot + length < slot && x / slot < y / slot
    ensures x + length < y
  {
    Recompose(x, slot);
    Recompose(y, slot);
    ProductBound(x / slot, y / slot, slot);
  }

  // ---- Filters ---------------------------------------------------------------------------

  function Filtered(es: seq<Extent>, p: Extent -> bool): seq<Extent> {
    if es == [] then [] else (if p(es[0]) then [es[0]] else []) + Filtered(es[1..], p)
  }

  lemma {:induction false} FilteredAppend(a: seq<Extent>, b: seq<Extent>, p: Extent -> bool)
    ensures Filtered(a + b, p) == Filtered(a, p) + Filtered(b, p)
    decreases |a|
  {
    if a == [] {
      assert a + b == b;
    } else {
      assert (a + b)[1..] == a[1..] + b;
      FilteredAppend(a[1..], b, p);
      var head, more := if p(a[0]) then [a[0]] else [], Filtered(a[1..], p);
      assert head + (more + Filtered(b, p)) == (head + more) + Filtered(b, p);
    }
  }

  /** Filtering twice is filtering once by both. */
  lemma {:induction false} FilteredTwice(es: seq<Extent>, p: Extent -> bool, q: Extent -> bool, both: Extent -> bool)
    requires forall i :: 0 <= i < |es| ==> (both(es[i]) <==> p(es[i]) && q(es[i]))
    ensures Filtered(Filtered(es, p), q) == Filtered(es, both)
  {
    if es != [] {
      FilteredTwice(es[1..], p, q, both);
      FilteredAppend(if p(es[0]) then [es[0]] else [], Filtered(es[1..], p), q);
      assert Filtered([es[0]], q) == if q(es[0]) then [es[0]] else [] by {
        assert [es[0]][1..] == [];
      }
    }
  }

  lemma {:induction false} FilteredAgree(es: seq<Extent>, p: Extent -> bool, q: Extent -> bool)
    requires forall i :: 0 <= i < |es| ==> (p(es[i]) <==> q(es[i]))
    ensures Filtered(es, p) == Filtered(es, q)
  {
    if es != [] {
      FilteredAgree(es[1..], p, q);
    }
  }

  lemma {:induction false} FilteredMembers(es: seq<Extent>, p: Extent -> bool)
    ensures forall i :: 0 <= i < |Filtered(es, p)| ==> Filtered(es, p)[i] in es && p(Filtered(es, p)[i])
    ensures |Filtered(es, p)| <= |es|
  {
    if es != [] {
      FilteredMembers(es[1..], p);
    }
  }

  /** What holds of every pair holds of every filtered one. */
  lemma {:induction false} FilteredKeeps(es: seq<Extent>, p: Extent -> bool, q: Extent -> bool)
    requires forall i :: 0 <= i < |es| ==> q(es[i])
    ensures forall i :: 0 <= i < |Filtered(es, p)| ==> q(Filtered(es, p)[i])
  {
    if es != [] {
      FilteredKeeps(es[1..], p, q);
    }
  }

  lemma SpacedCons(e: Extent, es: seq<Extent>)
    requires Spaced(es) && e.length > 0 && forall i :: 0 <= i < |es| ==> e.start + e.length < es[i].start
    ensures Spaced([e] + es)
  {
  }

  lemma SpacedTail(es: seq<Extent>)
    requires Spaced(es) && es != []
    ensures Spaced(es[1..]) && forall i :: 0 <= i < |es[1..]| ==> es[0].start + es[0].length < es[1..][i].start
  {
  }

  lemma {:induction false} FilteredSpaced(es: seq<Extent>, p: Extent -> bool)
    requires Spaced(es)
    ensures Spaced(Filtered(es, p))
  {
    if es != [] {
      SpacedTail(es);
      FilteredSpaced(es[1..], p);
      var more := Filtered(es[1..], p);
      if p(es[0]) {
        var beyond := (e: Extent) => es[0].start + es[0].length < e.start;
        FilteredKeeps(es[1..], p, beyond);
        assert forall i :: 0 <= i < |more| ==> beyond(more[i]);
        SpacedCons(es[0], more);
      } else {
        assert [] + more == more;
      }
    }
  }

  /** The device's address filter; mask 0 lets everything through. */
  datatype Filter = Filter(mask: nat, pattern: nat)

  predicate Passes(f: Filter, e: Extent) {
    f.mask == 0 || BitAnd(e.start, f.mask) == f.pattern
  }

  function From(f: Filter, cursor: nat): Extent -> bool {
    (e: Extent) => e.start >= cursor && Passes(f, e)
  }

  lemma HeadAndRest(next: seq<Extent>, rest: seq<Extent>)
    requires next != []
    ensures [next[0]] + (next[1..] + rest) == next + rest
  {
  }

  lemma NothingAfter(a: seq<Extent>, next: seq<Extent>, rest: seq<Extent>)
    requires next == []
    ensures next + rest == rest && (rest == [] ==> a + rest == a)
  {
  }

  lemma Reassociate(x: Extent, a: seq<Extent>, b: seq<Extent>)
    ensures ([x] + a) + b == [x] + (a + b)
  {
  }

  /** What the device has still to report from a cursor. */
  function Ahead(es: seq<Extent>, f: Filter, cursor: nat): seq<Extent> {
    Filtered(es, From(f, cursor))
  }

  /** Moving the cursor past the first n reported pairs leaves exactly the others. */
  lemma AheadAfter(es: seq<Extent>, f: Filter, cursor: nat, n: nat)
    requires Spaced(es) && 0 < n <= |Ahead(es, f, cursor)|
    ensures var sel := Ahead(es, f, cursor); Ahead(es, f, sel[n - 1].start + 1) == sel[n..]
  {
    var sel := Ahead(es, f, cursor);
    var next := sel[n - 1].start + 1;
    FilteredSpaced(es, From(f, cursor));
    FilteredMembers(es, From(f, cursor));
    FilteredTwice(es, From(f, cursor), From(f, next), From(f, next));
    assert sel == sel[..n] + sel[n..];
    FilteredAppend(sel[..n], sel[n..], From(f, next));
    FilteredNone(sel[..n], From(f, next));
    FilteredAll(sel[n..], From(f, next));
  }

  /** So a batch of them and the new cursor account for all that was ahead. */
  lemma CursorPasses(es: seq<Extent>, f: Filter, cursor: nat, n: nat)
    requires Spaced(es) && 0 < n <= |Ahead(es, f, cursor)|
    ensures var sel := Ahead(es, f, cursor);
            var cursor' := sel[n - 1].start + 1;
            && sel[..n] + Ahead(es, f, cursor') == sel && (n == |sel| ==> Ahead(es, f, cursor') == [])
            && cursor' >= cursor && forall i :: 0 <= i < n ==> cursor <= sel[i].start < cursor'
  {
    var sel := Ahead(es, f, cursor);
    AheadAfter(es, f, cursor, n);
    FilteredSpaced(es, From(f, cursor));
    FilteredMembers(es, From(f, cursor));
    forall i | 0 <= i < n ensures cursor <= sel[i].start <= sel[n - 1].start {
      assert From(f, cursor)(sel[i]);
    }
  }

  lemma {:induction false} FilteredNone(es: seq<Extent>, p: Extent -> bool)
    requires forall i :: 0 <= i < |es| ==> !p(es[i])
    ensures Filtered(es, p) == []
  {
    if es != [] {
      FilteredNone(es[1..], p);
    }
  }

  lemma {:induction false} FilteredAll(es: seq<Extent>, p: Extent -> bool)
    requires forall i :: 0 <= i < |es| ==> p(es[i])
    ensures Filtered(es, p) == es
  {
    if es != [] {
      FilteredAll(es[1..], p);
    }
  }

  // ---- The device ------------------------------------------------------------------------

  class RangeDevice {
    var extents: seq<Extent>
    const maxRanges: nat

    ghost predicate Valid()
      reads this
    {
      Spaced(extents) && maxRanges > 0
    }

    constructor (extents: seq<Extent>, maxRanges: nat)
      requires Spaced(extents) && maxRanges > 0
      ensures Valid() && this.extents == extents && this.maxRanges == maxRanges
    {
      this.extents := extents;
      this.maxRanges := maxRanges;
    }

    /** nvm_logical_range_iterator: the next ranges from the cursor on, and where it moves. */
    method NextRanges(f: Filter, cursor: nat) returns (ranges: seq<Extent>, cursor': nat)
      requires Valid()
      ensures |ranges| <= maxRanges && ranges + Ahead(extents, f, cursor') == Ahead(extents, f, cursor)
      ensures |ranges| < maxRanges ==> Ahead(extents, f, cursor') == []
      ensures cursor' >= cursor && forall i :: 0 <= i < |ranges| ==> cursor <= ranges[i].start < cursor'
    {
      var sel := Ahead(extents, f, cursor);
      if sel == [] {
        return [], cursor;
      }
      var n := if |sel| < maxRanges then |sel| else maxRanges;
      CursorPasses(extents, f, cursor, n);
      return sel[..n], sel[n - 1].start + 1;
    }

    /** count_ranges: batches until one is empty. */
    method CountRanges(base: nat) returns (count: nat)
      requires Valid()
      ensures count == |Ahead(extents, Filter(0, 0), base)|
    {
      count := 0;
      var cursor, more := base, true;
      while more
        invariant count + |Ahead(extents, Filter(0, 0), cursor)| == |Ahead(extents, Filter(0, 0), base)|
        invariant !more ==> Ahead(extents, Filter(0, 0), cursor) == []
        decreases |Ahead(extents, Filter(0, 0), cursor)|, more
      {
        var ranges;
        ranges, cursor := NextRanges(Filter(0, 0), cursor);
        count := count + |ranges|;
        more := |ranges| > 0;
      }
    }
  }

  /** Every pair lies in the user data, at an address that carries its pool's hash. */
  datatype PoolConfig = PoolConfig(hash: Config, poolBits: nat, maxPools: nat, dataStart: nat)

  ghost predicate ValidPools(c: PoolConfig) {
    c.poolBits < 64 && c.maxPools > 0 && c.hash.sliceAddr < WORD64
  }

  function HashOf(c: PoolConfig, pool: nat): nat
    requires c.poolBits < 64
  {
    PoolHash(c.hash, c.poolBits, c.maxPools, pool)
  }

  /** While ids fit the pool bits an id is its own hash, and addresses tell the pool. */
  predicate HashIsId(c: PoolConfig) {
    c.maxPools <= Pow2(c.poolBits)
  }

  function PoolMask(c: PoolConfig): nat {
    Pow2(c.poolBits) - 1
  }

  /** Which is to say: as long as the mask keeps every id as it is. */
  lemma HashIsIdIff(c: PoolConfig)
    ensures HashIsId(c) <==> forall pool: nat :: pool < c.maxPools ==> BitAnd(pool, PoolMask(c)) == pool
  {
    forall pool: nat ensures BitAnd(pool, PoolMask(c)) == pool <==> pool < Pow2(c.poolBits) {
      MaskKeepsIff(pool, c.poolBits);
    }
    assert HashIsId(c) || BitAnd(Pow2(c.poolBits), PoolMask(c)) != Pow2(c.poolBits);
  }

  lemma MaskKeepsIff(x: nat, n: nat)
    ensures BitAnd(x, Pow2(n) - 1) == x <==> x < Pow2(n)
  {
    AndLowMask(x, n);
    if x < Pow2(n) {
      DivModUnique(x, Pow2(n), 0, x);
    }
  }

  predicate PlacedAt(c: PoolConfig, e: Extent)
    requires c.poolBits < 64
  {
    e.start >= c.dataStart && e.pool < c.maxPools && BitAnd(e.start, PoolMask(c)) == HashOf(c, e.pool)
  }

  predicate Placed(c: PoolConfig, es: seq<Extent>)
    requires c.poolBits < 64
  {
    forall i :: 0 <= i < |es| ==> PlacedAt(c, es[i])
  }

  function OfPool(pool: nat): Extent -> bool {
    (e: Extent) => e.pool == pool
  }

  /** One pair a slot at or above the data start: the count of ranges is the number of pairs. */
  lemma CountIsPairs(c: PoolConfig, es: seq<Extent>)
    requires ValidPools(c) && Spaced(es) && Placed(c, es)
    ensures |Ahead(es, Filter(0, 0), c.dataStart)| == |es|
  {
    FilteredAll(es, From(Filter(0, 0), c.dataStart));
  }

  // ---- Iteration over one pool -----------------------------------------------------------

  function PoolFilter(c: PoolConfig, pool: nat): Filter
    requires c.poolBits < 64
  {
    if HashOf(c, pool) == 0 then Filter(0, 0) else Filter(PoolMask(c), HashOf(c, pool))
  }

  /** The checks iter_over_pool makes on a reported range. */
  function Wanted(c: PoolConfig, pool: nat): Extent -> bool
    requires c.poolBits < 64
  {
    (e: Extent) => BitAnd(e.start, PoolMask(c)) == HashOf(c, pool) && (HashIsId(c) || e.pool == pool)
  }

  /** Device filter and software check together select the pairs of the pool, whether ids are
      told from addresses or read from media. */
  lemma FilterAndCheckSelectPool(c: PoolConfig, es: seq<Extent>, pool: nat)
    requires ValidPools(c) && Placed(c, es) && pool < c.maxPools
    ensures Filtered(Ahead(es, PoolFilter(c, pool), c.dataStart), Wanted(c, pool)) == Filtered(es, OfPool(pool))
  {
    forall i | 0 <= i < |es|
      ensures OfPool(pool)(es[i]) <==> From(PoolFilter(c, pool), c.dataStart)(es[i]) && Wanted(c, pool)(es[i])
    {
      assert PlacedAt(c, es[i]);
    }
    FilteredTwice(es, From(PoolFilter(c, pool), c.dataStart), Wanted(c, pool), OfPool(pool));
  }

  class PoolIter {
    const c: PoolConfig
    const dev: RangeDevice
    const pool: nat
    var cursor: nat
    var ranges: seq<Extent>
    var found: nat
    var pos: nat

    ghost predicate Valid()
      reads this, dev
    {
      ValidPools(c) && dev.Valid() && Placed(c, dev.extents) && pool < c.maxPools
      && found <= |ranges| && (found == 0 ==> pos == 0) && (found > 0 ==> pos < found)
    }

    /** What iterate has still to step over: the rest of the batch, then what the device has. */
    ghost function Rest(): seq<Extent>
      requires Valid()
      reads this, dev
    {
      InBatch() + Ahead(dev.extents, PoolFilter(c, pool), cursor)
    }

    ghost function InBatch(): seq<Extent>
      requires Valid()
      reads this, dev
    {
      if pos + 1 < found then ranges[pos + 1..found] else []
    }

    /** alloc_iter and init_iter. */
    constructor (c: PoolConfig, dev: RangeDevice, pool: nat)
      requires ValidPools(c) && dev.Valid() && Placed(c, dev.extents) && pool < c.maxPools
      ensures Valid() && this.c == c && this.dev == dev && this.pool == pool && found == 0
      ensures Rest() == Ahead(dev.extents, PoolFilter(c, pool), c.dataStart)
    {
      this.c, this.dev, this.pool := c, dev, pool;
      cursor, ranges, found, pos := c.dataStart, [], 0, 0;
      new;
      assert [] + Ahead(dev.extents, PoolFilter(c, pool), c.dataStart)
             == Ahead(dev.extents, PoolFilter(c, pool), c.dataStart);
    }

    /** iterate: one range forward. At the end it rewinds the position but keeps the old batch,
        so that a caller who goes on after the end is given that batch again but its first range. */
    method Iterate() returns (ok: bool)
      requires Valid()
      modifies this
      ensures Valid() && (ok <==> old(Rest()) != [])
      ensures ok ==> found > 0 && [ranges[pos]] + Rest() == old(Rest())
      ensures !ok ==> found == old(found) && Rest() == if found > 1 then old(ranges)[1..found] else []
    {
      if pos + 1 < found {
        ghost var ahead := Ahead(dev.extents, PoolFilter(c, pool), cursor);
        pos := pos + 1;
        ok := true;
        assert old(InBatch()) == [ranges[pos]] + InBatch();
        Reassociate(ranges[pos], InBatch(), ahead);
      } else {
        assert InBatch() == [] && Rest() == Ahead(dev.extents, PoolFilter(c, pool), cursor);
        ok := NextBatch();
      }
    }

    method NextBatch() returns (ok: bool)
      requires Valid()
      modifies this
      ensures Valid() && (ok <==> old(Ahead(dev.extents, PoolFilter(c, pool), cursor)) != [])
      ensures ok ==> found > 0 && [ranges[pos]] + Rest() == old(Ahead(dev.extents, PoolFilter(c, pool), cursor))
      ensures !ok ==> found == old(found) && Rest() == if found > 1 then old(ranges)[1..found] else []
    {
      pos := 0;
      var next, cursor' := dev.NextRanges(PoolFilter(c, pool), cursor);
      cursor := cursor';
      ghost var rest := Ahead(dev.extents, PoolFilter(c, pool), cursor');
      ok := |next| > 0;
      if ok {
        ranges, found := next, |next|;
        assert InBatch() == next[1..];
        HeadAndRest(next, rest);
      } else {
        NothingAfter(InBatch(), next, rest);
      }
    }

    /** iter_over_pool: on to the next pair of the pool. */
    method IterOverPool() returns (ok: bool)
      requires Valid()
      modifies this
      ensures Valid() && (ok <==> Filtered(old(Rest()), Wanted(c, pool)) != [])
      ensures ok ==> found > 0
      ensures ok ==> [ranges[pos]] + Filtered(Rest(), Wanted(c, pool)) == Filtered(old(Rest()), Wanted(c, pool))
    {
      ghost var all := Filtered(Rest(), Wanted(c, pool));
      ok := true;
      while ok
        invariant Valid() && (ok ==> Filtered(Rest(), Wanted(c, pool)) == all) && (!ok ==> all == [])
        decreases ok, |Rest()|
      {
        ghost var rest := Rest();
        ok := Iterate();
        if ok {
          assert Filtered(rest, Wanted(c, pool))
              == (if Wanted(c, pool)(ranges[pos]) then [ranges[pos]] else []) + Filtered(Rest(), Wanted(c, pool)) by {
            assert rest[1..] == Rest();
          }
          if BitAnd(ranges[pos].start, PoolMask(c)) == HashOf(c, pool) {
            if HashIsId(c) {
              return;
            }
            if ranges[pos].pool == pool {
              return;
            }
          }
        }
      }
    }

    /** The caller's loop: take the current pair and go on until nothing is found. */
    method Drain() returns (yielded: seq<Extent>)
      requires Valid()
      modifies this
      ensures yielded == Filtered(old(Rest()), Wanted(c, pool))
    {
      ghost var left := Filtered(Rest(), Wanted(c, pool));
      ghost var all := left;
      yielded := [];
      var more := IterOverPool();
      while more
        invariant Valid() && yielded + left == all
        invariant if more then found > 0 && left == [ranges[pos]] + Filtered(Rest(), Wanted(c, pool)) else left == []
        decreases |left|
      {
        TakesCurrent(yielded, ranges[pos], Filtered(Rest(), Wanted(c, pool)));
        yielded := yielded + [ranges[pos]];
        left := Filtered(Rest(), Wanted(c, pool));
        more := IterOverPool();
      }
    }
  }

  lemma TakesCurrent(a: seq<Extent>, e: Extent, rest: seq<Extent>)
    ensures a + ([e] + rest) == (a + [e]) + rest
  {
  }

  /** kv_begin, then kv_next until nothing is found: every pair of the pool once, in address
      order, and no other, across batches. */
  method IteratePool(c: PoolConfig, dev: RangeDevice, pool: nat) returns (yielded: seq<Extent>)
    requires ValidPools(c) && dev.Valid() && Placed(c, dev.extents) && pool < c.maxPools
    ensures yielded == Filtered(dev.extents, OfPool(pool))
  {
    var it := new PoolIter(c, dev, pool);
    FilterAndCheckSelectPool(c, dev.extents, pool);
    yielded := it.Drain();
  }
}
