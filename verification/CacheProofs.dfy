/** What the collision cache guarantees: insertions are found, eviction takes the oldest of a
    window, entries stay where they belong; and what deletions break. */
module CacheProofs {
  import opened Bits
  import opened HashFunc
  import opened Cache

  /** The window of a key covers slot i. */
  predicate InWindow(bits: nat, key: seq<Byte>, pool: nat, i: nat)
    requires bits <= 60
  {
    exists j :: 0 <= j < WINDOW && Slot(bits, key, pool, j) == i
  }

  /** A probe that passes over a table changed in one slot, to an entry of the key, ends there. */
  lemma FoundWhereChanged(t: Table, t': Table, bits: nat, key: seq<Byte>, pool: nat, j: nat, expiring: bool, now: nat)
    requires Shaped(t, bits) && key != [] && j < WINDOW
    requires var i := Slot(bits, key, pool, j); |t'| == |t| && t' == t[i := t'[i]] && t'[i].Is(key, pool)
    requires forall k :: 0 <= k < j && Slot(bits, key, pool, k) != Slot(bits, key, pool, j) ==>
             !Stops(t, bits, key, pool, k)
    ensures Lookup(t', bits, key, pool, expiring, now).Found?
    ensures var e := t'[Slot(bits, key, pool, j)];
            Lookup(t', bits, key, pool, expiring, now) == Found(e, expiring && 0 < e.expiry < now)
  {
    var i := Slot(bits, key, pool, j);
    assert Stops(t', bits, key, pool, j);
    var s := StopAt(t', bits, key, pool, 0);
    assert s <= j;
    if Slot(bits, key, pool, s) != i {
      assert Stops(t, bits, key, pool, s);
    }
  }

  /** What the insertion after a lookup of the same key, or one without a context, leaves there. */
  function Inserted(t: Table, bits: nat, ctx: Context, item: Item, now: nat): (e: Entry)
    requires Shaped(t, bits) && ContextFits(t, ctx)
  {
    if ctx.Found? then ctx.entry.(valueLen := item.valueLen, ts := now)
    else
      var i := PlaceFor(t, bits, item.key, item.pool);
      Entry(t[i].index, item.key, item.pool, item.valueLen, item.expiry, item.genCount, item.lba, now)
  }

  predicate Indexed(t: Table) {
    forall i :: 0 <= i < |t| ==> t[i].index == i
  }

  /** Right after a lookup of its key, or without a context, an insertion goes to the place the
      probe gives, and changes nothing else. */
  lemma InsertsAtPlace(t: Table, bits: nat, ctx: Context, item: Item, now: nat, expiring: bool, before: nat)
    requires Shaped(t, bits) && Indexed(t) && item.key != []
    requires ctx == NotFound || ctx == Lookup(t, bits, item.key, item.pool, expiring, before)
    ensures ContextFits(t, ctx)
    ensures Put(t, bits, ctx, item, now)
            == t[PlaceFor(t, bits, item.key, item.pool) := Inserted(t, bits, ctx, item, now)]
    ensures ctx.Found? ==> t[PlaceFor(t, bits, item.key, item.pool)] == ctx.entry
  {
  }

  /** The next lookup hits and gives the length just put. Address, expiry and generation are
      those just put too, unless the context said that the key was already cached: then they
      are still the old ones. It is by that expiry, and only when keys expire and it is not 0,
      that the hit counts as expired. */
  lemma PutThenGet(t: Table, bits: nat, ctx: Context, item: Item, now: nat, expiring: bool, before: nat, later: nat)
    requires Shaped(t, bits) && Indexed(t) && item.key != []
    requires ctx == NotFound || ctx == Lookup(t, bits, item.key, item.pool, expiring, before)
    ensures ContextFits(t, ctx) && |Put(t, bits, ctx, item, now)| == |t|
    ensures var hit := Lookup(Put(t, bits, ctx, item, now), bits, item.key, item.pool, expiring, later);
            hit.Found? && hit.entry.valueLen == item.valueLen && hit.entry.ts == now
            && (if ctx.Found?
                then hit.entry.lba == ctx.entry.lba
                     && hit.entry.expiry == ctx.entry.expiry && hit.entry.genCount == ctx.entry.genCount
                     && (hit.expired <==> expiring && 0 < ctx.entry.expiry < later)
                else hit.entry.lba == item.lba
                     && hit.entry.expiry == item.expiry && hit.entry.genCount == item.genCount
                     && (hit.expired <==> expiring && 0 < item.expiry < later))
  {
    InsertsAtPlace(t, bits, ctx, item, now, expiring, before);
    var s := StopAt(t, bits, item.key, item.pool, 0);
    var j := if s == WINDOW then Oldest(t, bits, item.key, item.pool, WINDOW) else s;
    FoundWhereChanged(t, Put(t, bits, ctx, item, now), bits, item.key, item.pool, j, expiring, later);
  }

  /** Such an insertion displaces another key only when the whole window is taken by others,
      and then the one stamped earliest. */
  lemma EvictsOldest(t: Table, bits: nat, ctx: Context, item: Item, now: nat, expiring: bool, before: nat)
    requires Shaped(t, bits) && Indexed(t) && item.key != []
    requires ctx == NotFound || ctx == Lookup(t, bits, item.key, item.pool, expiring, before)
    ensures ContextFits(t, ctx)
    ensures var i := PlaceFor(t, bits, item.key, item.pool);
            InWindow(bits, item.key, item.pool, i)
            && (forall k :: 0 <= k < |t| && k != i ==> Put(t, bits, ctx, item, now)[k] == t[k])
            && (!t[i].Free() && !t[i].Is(item.key, item.pool) ==>
                  forall j :: 0 <= j < WINDOW ==>
                    var e := t[Slot(bits, item.key, item.pool, j)];
                    !e.Free() && !e.Is(item.key, item.pool) && t[i].ts <= e.ts)
  {
    InsertsAtPlace(t, bits, ctx, item, now, expiring, before);
    var s := StopAt(t, bits, item.key, item.pool, 0);
    var j := if s == WINDOW then Oldest(t, bits, item.key, item.pool, WINDOW) else s;
    assert Slot(bits, item.key, item.pool, j) == PlaceFor(t, bits, item.key, item.pool);
    if s == WINDOW {
      forall k | 0 <= k < WINDOW
        ensures var e := t[Slot(bits, item.key, item.pool, k)]; !e.Free() && !e.Is(item.key, item.pool)
      {
        assert !Stops(t, bits, item.key, item.pool, k);
      }
    }
  }

  // ---- Any run, contexts of any age ------------------------------------------------------

  datatype Supply = Supply(key: seq<Byte>, pool: nat, lba: nat)

  /** Entry i says i, lies in its key's window, and its address came from a put of its key. */
  ghost predicate CacheOk(t: Table, bits: nat, supplied: set<Supply>) {
    Shaped(t, bits) && Indexed(t)
    && forall i :: 0 <= i < |t| ==> EntryOk(t[i], bits, supplied)
  }

  ghost predicate EntryOk(e: Entry, bits: nat, supplied: set<Supply>)
    requires bits <= 60
  {
    e.Free() || (InWindow(bits, e.key, e.pool, e.index) && Supply(e.key, e.pool, e.lba) in supplied)
  }

  /** A context from a lookup of this key, however long ago. */
  ghost predicate ContextFor(t: Table, bits: nat, ctx: Context, item: Item)
    requires bits <= 60
  {
    ContextFits(t, ctx)
    && match ctx
       case NotFound => true
       case EmptySlot(i) => InWindow(bits, item.key, item.pool, i)
       case Found(e, _) => InWindow(bits, item.key, item.pool, e.index)
       case Victim(e) => InWindow(bits, item.key, item.pool, e.index)
  }

  datatype Op =
    | PutOp(ctx: Context, item: Item, now: nat)
    | DeleteOp(key: seq<Byte>, pool: nat)
    | PurgeLbas(lbas: set<nat>)
    | PurgePools(pools: set<nat>)
    | PurgeAll

  function Purged(op: Op): Entry -> bool
    requires op.PurgeLbas? || op.PurgePools? || op.PurgeAll?
  {
    match op
    case PurgeLbas(lbas) => (e: Entry) => e.lba in lbas
    case PurgePools(pools) => (e: Entry) => e.pool in pools
    case PurgeAll => (e: Entry) => true
  }

  ghost predicate LegalOp(t: Table, bits: nat, op: Op)
    requires Shaped(t, bits)
  {
    match op
    case PutOp(ctx, item, _) => item.key != [] && ContextFor(t, bits, ctx, item)
    case DeleteOp(key, _) => key != []
    case _ => true
  }

  ghost function Apply(t: Table, bits: nat, op: Op): Table
    requires Shaped(t, bits) && LegalOp(t, bits, op)
  {
    match op
    case PutOp(ctx, item, now) => Put(t, bits, ctx, item, now)
    case DeleteOp(key, pool) => Delete(t, bits, key, pool)
    case _ => Purge(t, Purged(op))
  }

  function Supplies(op: Op): set<Supply> {
    if op.PutOp? then {Supply(op.item.key, op.item.pool, op.item.lba)} else {}
  }

  lemma LookupGivesContext(t: Table, bits: nat, item: Item, expiring: bool, now: nat)
    requires Shaped(t, bits) && Indexed(t)
    ensures ContextFor(t, bits, Lookup(t, bits, item.key, item.pool, expiring, now), item)
  {
    var s := StopAt(t, bits, item.key, item.pool, 0);
    var j := if s == WINDOW then Oldest(t, bits, item.key, item.pool, WINDOW) else s;
    assert InWindow(bits, item.key, item.pool, Slot(bits, item.key, item.pool, j));
  }

  lemma PlaceInWindow(t: Table, bits: nat, key: seq<Byte>, pool: nat)
    requires Shaped(t, bits)
    ensures InWindow(bits, key, pool, PlaceFor(t, bits, key, pool))
  {
    var s := StopAt(t, bits, key, pool, 0);
    var j := if s == WINDOW then Oldest(t, bits, key, pool, WINDOW) else s;
    assert Slot(bits, key, pool, j) == PlaceFor(t, bits, key, pool);
  }

  /** One entry changed, the rest as before. */
  lemma ChangeKeepsOk(t: Table, t': Table, bits: nat, supplied: set<Supply>, more: set<Supply>, i: nat)
    requires CacheOk(t, bits, supplied) && i < |t| == |t'| && t' == t[i := t'[i]]
    requires t'[i].index == i && EntryOk(t'[i], bits, supplied + more)
    ensures CacheOk(t', bits, supplied + more)
  {
    forall k | 0 <= k < |t'| ensures EntryOk(t'[k], bits, supplied + more) {
      assert k != i ==> EntryOk(t[k], bits, supplied);
    }
  }

  lemma StepKeepsOk(t: Table, bits: nat, supplied: set<Supply>, op: Op)
    requires CacheOk(t, bits, supplied) && LegalOp(t, bits, op)
    ensures CacheOk(Apply(t, bits, op), bits, supplied + Supplies(op))
  {
    var t' := Apply(t, bits, op);
    match op {
      case PutOp(ctx, item, now) =>
        PlaceInWindow(t, bits, item.key, item.pool);
        var i :=
          if ctx.Found? && t[ctx.entry.index].Is(item.key, item.pool) then ctx.entry.index
          else if ctx.EmptySlot? && t[ctx.index].Free() then ctx.index
          else if ctx.Victim? && t[ctx.entry.index].Is(ctx.entry.key, ctx.entry.pool) then ctx.entry.index
          else PlaceFor(t, bits, item.key, item.pool);
        assert EntryOk(t[i], bits, supplied);
        ChangeKeepsOk(t, t', bits, supplied, Supplies(op), i);
      case DeleteOp(key, pool) =>
        var r := HeldAt(t, bits, key, pool, 0);
        if r < WINDOW {
          ChangeKeepsOk(t, t', bits, supplied, {}, Slot(bits, key, pool, r));
        }
      case _ =>
        forall k | 0 <= k < |t'| ensures EntryOk(t'[k], bits, supplied) && t'[k].index == k {
          assert EntryOk(t[k], bits, supplied);
        }
    }
  }

  ghost predicate LegalRun(t: Table, bits: nat, ops: seq<Op>)
    decreases |ops|
  {
    ops == [] || (Shaped(t, bits) && LegalOp(t, bits, ops[0]) && LegalRun(Apply(t, bits, ops[0]), bits, ops[1..]))
  }

  ghost function After(t: Table, bits: nat, ops: seq<Op>): Table
    requires LegalRun(t, bits, ops)
    decreases |ops|
  {
    if ops == [] then t else After(Apply(t, bits, ops[0]), bits, ops[1..])
  }

  function AllSupplied(ops: seq<Op>): set<Supply> {
    if ops == [] then {} else Supplies(ops[0]) + AllSupplied(ops[1..])
  }

  lemma {:induction false} RunKeepsOk(t: Table, bits: nat, supplied: set<Supply>, ops: seq<Op>)
    requires CacheOk(t, bits, supplied) && LegalRun(t, bits, ops)
    ensures CacheOk(After(t, bits, ops), bits, supplied + AllSupplied(ops))
    decreases |ops|
  {
    if ops == [] {
      assert supplied + AllSupplied(ops) == supplied;
    } else {
      StepKeepsOk(t, bits, supplied, ops[0]);
      RunKeepsOk(Apply(t, bits, ops[0]), bits, supplied + Supplies(ops[0]), ops[1..]);
      assert supplied + Supplies(ops[0]) + AllSupplied(ops[1..]) == supplied + AllSupplied(ops);
    }
  }

  lemma FreshOk(bits: nat)
    requires bits <= 60
    ensures CacheOk(FreshTable(Pow2(bits)), bits, {})
  {
  }

  /** In any run, however old the contexts of its puts: entry i has index i and lies in its
      key's window, a hit's address was supplied by an earlier put of that key and pool, and
      what a lookup returns is a context that a put of the key may come with at any later time. */
  lemma HitsWereSupplied(bits: nat, ops: seq<Op>, key: seq<Byte>, pool: nat, expiring: bool, now: nat)
    requires bits <= 60 && key != [] && LegalRun(FreshTable(Pow2(bits)), bits, ops)
    ensures var t := After(FreshTable(Pow2(bits)), bits, ops);
            Shaped(t, bits) && Indexed(t)
            && (forall i :: 0 <= i < |t| && !t[i].Free() ==> InWindow(bits, t[i].key, t[i].pool, i))
            && var hit := Lookup(t, bits, key, pool, expiring, now);
               && (hit.Found? ==> Supply(key, pool, hit.entry.lba) in AllSupplied(ops)
                                  && (hit.expired <==> expiring && 0 < hit.entry.expiry < now))
               && forall item: Item :: item.key == key && item.pool == pool ==> ContextFor(t, bits, hit, item)
  {
    FreshOk(bits);
    RunKeepsOk(FreshTable(Pow2(bits)), bits, {}, ops);
    var t := After(FreshTable(Pow2(bits)), bits, ops);
    assert {} + AllSupplied(ops) == AllSupplied(ops);
    assert forall i :: 0 <= i < |t| ==> EntryOk(t[i], bits, AllSupplied(ops));
    forall item: Item | item.key == key && item.pool == pool
      ensures ContextFor(t, bits, Lookup(t, bits, key, pool, expiring, now), item)
    {
      LookupGivesContext(t, bits, item, expiring, now);
    }
  }

  /** After a purge no matching entry is left, nothing else is gone, and free slots stay free. */
  lemma PurgeIsExact(t: Table, p: Entry -> bool, i: nat)
    requires Indexed(t) && i < |t|
    ensures var e := Purge(t, p)[i];
            e.index == i && (e.Free() <==> t[i].Free() || p(t[i])) && (!e.Free() ==> e == t[i] && !p(e))
  {
  }

  /** A put with a context of any age caches its key: it writes one slot of the key's window
      and no other. The slot was free, the key's own, the victim's that the context names, or
      the one the probe gives. An entry of the key renewed through the context keeps its
      address, expiry and generation. */
  lemma PutWritesOneSlot(t: Table, bits: nat, ctx: Context, item: Item, now: nat) returns (i: nat)
    requires Shaped(t, bits) && Indexed(t) && item.key != [] && ContextFor(t, bits, ctx, item)
    ensures i < |t| && InWindow(bits, item.key, item.pool, i)
    ensures var t' := Put(t, bits, ctx, item, now);
            |t'| == |t| && (forall k :: 0 <= k < |t| && k != i ==> t'[k] == t[k])
            && t'[i].Is(item.key, item.pool) && t'[i].index == i
            && t'[i].valueLen == item.valueLen && t'[i].ts == now
            && (if ctx.Found? && i == ctx.entry.index && t[i].Is(item.key, item.pool)
                then t'[i].lba == t[i].lba && t'[i].expiry == t[i].expiry && t'[i].genCount == t[i].genCount
                else t'[i].lba == item.lba && t'[i].expiry == item.expiry && t'[i].genCount == item.genCount)
    ensures t[i].Free() || (ctx.Found? && i == ctx.entry.index && t[i].Is(item.key, item.pool))
            || (ctx.Victim? && i == ctx.entry.index && t[i].Is(ctx.entry.key, ctx.entry.pool))
            || i == PlaceFor(t, bits, item.key, item.pool)
    ensures ctx.Found? && t[ctx.entry.index].Is(item.key, item.pool) ==> i == ctx.entry.index
    ensures ctx.EmptySlot? && t[ctx.index].Free() ==> i == ctx.index
    ensures ctx.Victim? && t[ctx.entry.index].Is(ctx.entry.key, ctx.entry.pool) ==> i == ctx.entry.index
  {
    PlaceInWindow(t, bits, item.key, item.pool);
    i :=
      if ctx.Found? && t[ctx.entry.index].Is(item.key, item.pool) then ctx.entry.index
      else if ctx.EmptySlot? && t[ctx.index].Free() then ctx.index
      else if ctx.Victim? && t[ctx.entry.index].Is(ctx.entry.key, ctx.entry.pool) then ctx.entry.index
      else PlaceFor(t, bits, item.key, item.pool);
  }

  /** A delete empties one entry of its key, the first in the key's window, free slots before it
      or not; without one it changes nothing. No entry of another key is touched. */
  lemma DeleteTakesOne(t: Table, bits: nat, key: seq<Byte>, pool: nat)
    requires Shaped(t, bits) && Indexed(t) && key != []
    ensures var t' := Delete(t, bits, key, pool);
            |t'| == |t|
            && (forall k :: 0 <= k < |t| && !t[k].Is(key, pool) ==> t'[k] == t[k])
            && forall j :: 0 <= j < WINDOW && t[Slot(bits, key, pool, j)].Is(key, pool) ==>
                 var first := forall k :: 0 <= k < j ==> !t[Slot(bits, key, pool, k)].Is(key, pool);
                 first ==> t' == t[Slot(bits, key, pool, j) := Vacant(Slot(bits, key, pool, j))]
    ensures (forall j :: 0 <= j < WINDOW ==> !t[Slot(bits, key, pool, j)].Is(key, pool)) ==>
              Delete(t, bits, key, pool) == t
  {
    var r := HeldAt(t, bits, key, pool, 0);
    forall j | 0 <= j < WINDOW && t[Slot(bits, key, pool, j)].Is(key, pool)
               && forall k :: 0 <= k < j ==> !t[Slot(bits, key, pool, k)].Is(key, pool)
      ensures r == j
    {
    }
  }

  // ---- When every entry can be found -----------------------------------------------------

  /** Each cached pair is what a lookup of its key finds: it is cached once, and no free slot
      precedes it in its window. */
  ghost predicate AllReachable(t: Table, bits: nat)
    requires Shaped(t, bits)
  {
    forall i :: 0 <= i < |t| && !t[i].Free() ==> Reaches(t, bits, t[i].key, t[i].pool, i)
  }

  predicate Reaches(t: Table, bits: nat, key: seq<Byte>, pool: nat, i: nat)
    requires Shaped(t, bits)
  {
    var s := StopAt(t, bits, key, pool, 0);
    s < WINDOW && Slot(bits, key, pool, s) == i
  }

  /** Filling the place the probe gave, or renewing the entry there, keeps all others reachable. */
  lemma InsertKeepsReachable(t: Table, bits: nat, e: Entry, i: nat)
    requires Shaped(t, bits) && AllReachable(t, bits) && e.key != []
    requires i == PlaceFor(t, bits, e.key, e.pool)
    ensures AllReachable(t[i := e], bits)
  {
    var t' := t[i := e];
    forall k | 0 <= k < |t'| && !t'[k].Free() ensures Reaches(t', bits, t'[k].key, t'[k].pool, k) {
      if k == i {
        var s := StopAt(t, bits, e.key, e.pool, 0);
        var j := if s == WINDOW then Oldest(t, bits, e.key, e.pool, WINDOW) else s;
        FoundWhereChanged(t, t', bits, e.key, e.pool, j, false, 0);
        StopsInTheEnd(t', bits, e.key, e.pool, i);
      } else {
        var x := t[k];
        assert Reaches(t, bits, x.key, x.pool, k);
        assert !x.Is(e.key, e.pool);
        OtherStillReached(t, t', bits, x.key, x.pool, k, i);
      }
    }
  }

  lemma StopsInTheEnd(t: Table, bits: nat, key: seq<Byte>, pool: nat, i: nat)
    requires Shaped(t, bits) && Lookup(t, bits, key, pool, false, 0).Found? && i < |t| && t[i].Is(key, pool)
    requires Lookup(t, bits, key, pool, false, 0).entry == t[i]
    requires forall k :: 0 <= k < |t| && t[k] == t[i] ==> k == i
    ensures Reaches(t, bits, key, pool, i)
  {
  }

  lemma OtherStillReached(t: Table, t': Table, bits: nat, key: seq<Byte>, pool: nat, k: nat, i: nat)
    requires Shaped(t, bits) && |t'| == |t| && i < |t| && i != k && t' == t[i := t'[i]]
    requires Reaches(t, bits, key, pool, k) && !t'[i].Free() && !t'[i].Is(key, pool)
    ensures Reaches(t', bits, key, pool, k)
  {
    var s := StopAt(t, bits, key, pool, 0);
    assert Stops(t', bits, key, pool, s);
    forall j | 0 <= j < s ensures !Stops(t', bits, key, pool, j) {
      assert !Stops(t, bits, key, pool, j);
    }
  }

  /** A put as a caller makes it on its own: with the context of a lookup made just before, or
      without one. */
  datatype OwnPut = OwnPut(lookedUp: bool, expiring: bool, before: nat, item: Item, now: nat)

  function ContextOf(t: Table, bits: nat, p: OwnPut): Context
    requires Shaped(t, bits)
  {
    if p.lookedUp then Lookup(t, bits, p.item.key, p.item.pool, p.expiring, p.before) else NotFound
  }

  predicate OwnRun(t: Table, bits: nat, ps: seq<OwnPut>)
    decreases |ps|
  {
    Shaped(t, bits) && Indexed(t)
    && (ps == [] || (ps[0].item.key != [] && OwnRun(AfterPut(t, bits, ps[0]), bits, ps[1..])))
  }

  function AfterPut(t: Table, bits: nat, p: OwnPut): Table
    requires Shaped(t, bits) && Indexed(t)
  {
    Put(t, bits, ContextOf(t, bits, p), p.item, p.now)
  }

  function AfterPuts(t: Table, bits: nat, ps: seq<OwnPut>): Table
    requires OwnRun(t, bits, ps)
    decreases |ps|
  {
    if ps == [] then t else AfterPuts(AfterPut(t, bits, ps[0]), bits, ps[1..])
  }

  lemma {:induction false} PutsKeepReachable(t: Table, bits: nat, ps: seq<OwnPut>)
    requires OwnRun(t, bits, ps) && AllReachable(t, bits)
    ensures Shaped(AfterPuts(t, bits, ps), bits) && AllReachable(AfterPuts(t, bits, ps), bits)
    decreases |ps|
  {
    if ps != [] {
      var p := ps[0];
      var ctx := ContextOf(t, bits, p);
      InsertsAtPlace(t, bits, ctx, p.item, p.now, p.expiring, p.before);
      InsertKeepsReachable(t, bits, Inserted(t, bits, ctx, p.item, p.now), PlaceFor(t, bits, p.item.key, p.item.pool));
      PutsKeepReachable(AfterPut(t, bits, p), bits, ps[1..]);
    }
  }

  /** In a run without deletions each key is cached at most once, a lookup hits exactly when it
      is cached, and then finds that entry. */
  lemma DeleteFreeRunFindsAll(bits: nat, ps: seq<OwnPut>, key: seq<Byte>, pool: nat, expiring: bool, now: nat)
    requires bits <= 60 && key != [] && OwnRun(FreshTable(Pow2(bits)), bits, ps)
    ensures var t := AfterPuts(FreshTable(Pow2(bits)), bits, ps);
            Shaped(t, bits)
            && (forall i, j :: 0 <= i < |t| && 0 <= j < |t| && t[i].Is(key, pool) && t[j].Is(key, pool) ==> i == j)
            && (Lookup(t, bits, key, pool, expiring, now).Found? <==> exists i :: 0 <= i < |t| && t[i].Is(key, pool))
  {
    PutsKeepReachable(FreshTable(Pow2(bits)), bits, ps);
    var t := AfterPuts(FreshTable(Pow2(bits)), bits, ps);
    assert forall i :: 0 <= i < |t| && t[i].Is(key, pool) ==> Reaches(t, bits, key, pool, i);
    var s := StopAt(t, bits, key, pool, 0);
    if s < WINDOW && t[Slot(bits, key, pool, s)].Is(key, pool) {
      assert exists i :: 0 <= i < |t| && t[i].Is(key, pool);
    }
  }

  // ---- What deletions and old contexts break ---------------------------------------------

  /** The probe for an entry passes slot i before it gets there. */
  predicate Crosses(t: Table, bits: nat, key: seq<Byte>, pool: nat, i: nat)
    requires Shaped(t, bits)
  {
    exists j :: 0 <= j < StopAt(t, bits, key, pool, 0) && Slot(bits, key, pool, j) == i
  }

  /** Deleting a cached key leaves all other entries reachable exactly when no probe for one of
      them crosses the freed slot. */
  lemma DeleteKeepsReachableIff(t: Table, bits: nat, key: seq<Byte>, pool: nat, i: nat)
    requires Shaped(t, bits) && AllReachable(t, bits) && key != [] && i < |t| && t[i].Is(key, pool)
    ensures |Delete(t, bits, key, pool)| == |t|
    ensures AllReachable(Delete(t, bits, key, pool), bits) <==>
            forall k :: 0 <= k < |t| && k != i && !t[k].Free() ==> !Crosses(t, bits, t[k].key, t[k].pool, i)
  {
    assert Reaches(t, bits, key, pool, i);
    var t' := Delete(t, bits, key, pool);
    DeletesItsEntry(t, bits, key, pool, i);
    forall k | 0 <= k < |t| && k != i && !t[k].Free()
      ensures Reaches(t', bits, t[k].key, t[k].pool, k) <==> !Crosses(t, bits, t[k].key, t[k].pool, i)
    {
      assert Reaches(t, bits, t[k].key, t[k].pool, k);
      FreedSlot(t, t', bits, t[k].key, t[k].pool, k, i);
    }
    if forall k :: 0 <= k < |t| && k != i && !t[k].Free() ==> !Crosses(t, bits, t[k].key, t[k].pool, i) {
      forall k | 0 <= k < |t'| && !t'[k].Free() ensures Reaches(t', bits, t'[k].key, t'[k].pool, k) {
        assert k != i && t'[k] == t[k];
      }
    } else {
      var k :| 0 <= k < |t| && k != i && !t[k].Free() && Crosses(t, bits, t[k].key, t[k].pool, i);
      assert t'[k] == t[k] && !Reaches(t', bits, t'[k].key, t'[k].pool, k);
    }
  }

  lemma DeletesItsEntry(t: Table, bits: nat, key: seq<Byte>, pool: nat, i: nat)
    requires Shaped(t, bits) && key != [] && i < |t| && Reaches(t, bits, key, pool, i) && t[i].Is(key, pool)
    requires forall k :: 0 <= k < |t| && t[k].Is(key, pool) ==> k == i
    ensures Delete(t, bits, key, pool) == t[i := Vacant(t[i].index)]
  {
    var s := StopAt(t, bits, key, pool, 0);
    var r := HeldAt(t, bits, key, pool, 0);
    assert r <= s;
  }

  lemma FreedSlot(t: Table, t': Table, bits: nat, key: seq<Byte>, pool: nat, k: nat, i: nat)
    requires Shaped(t, bits) && |t'| == |t| && i < |t| && i != k && t' == t[i := t'[i]] && t'[i].Free()
    requires Reaches(t, bits, key, pool, k)
    ensures Reaches(t', bits, key, pool, k) <==> !Crosses(t, bits, key, pool, i)
  {
    var s := StopAt(t, bits, key, pool, 0);
    assert Stops(t', bits, key, pool, s);
    forall j | 0 <= j < s ensures Slot(bits, key, pool, j) != k {
      assert !Stops(t, bits, key, pool, j) && Stops(t, bits, key, pool, s);
    }
    if Crosses(t, bits, key, pool, i) {
      var j :| 0 <= j < s && Slot(bits, key, pool, j) == i;
      assert Stops(t', bits, key, pool, j);
      assert StopAt(t', bits, key, pool, 0) <= j;
    } else {
      forall j | 0 <= j < s ensures !Stops(t', bits, key, pool, j) {
        assert !Stops(t, bits, key, pool, j);
        assert Slot(bits, key, pool, j) != i;
      }
    }
  }

  /** A put through an old context that named a victim writes over the victim although its key
      has been cached elsewhere meanwhile: the key is then cached twice. */
  lemma OldVictimDuplicates(t: Table, bits: nat, victim: Entry, item: Item, now: nat, i: nat)
    requires Shaped(t, bits) && Indexed(t) && item.key != [] && victim.index < |t|
    requires t[victim.index].Is(victim.key, victim.pool) && i < |t| && i != victim.index && t[i].Is(item.key, item.pool)
    ensures var t' := Put(t, bits, Victim(victim), item, now);
            |t'| == |t| && t'[i].Is(item.key, item.pool) && t'[victim.index].Is(item.key, item.pool)
            && !AllReachable(t', bits)
  {
    var t' := Put(t, bits, Victim(victim), item, now);
    assert Reaches(t', bits, item.key, item.pool, i) ==> !Reaches(t', bits, item.key, item.pool, victim.index);
  }

  /** A put looked up just before, and a delete, as steps on indexed tables. */
  function Insert(t: Table, bits: nat, item: Item, now: nat): (r: Table)
    requires Shaped(t, bits) && Indexed(t)
    ensures Shaped(r, bits) && Indexed(r)
  {
    Put(t, bits, Lookup(t, bits, item.key, item.pool, false, 0), item, now)
  }

  function Remove(t: Table, bits: nat, item: Item): (r: Table)
    requires Shaped(t, bits) && Indexed(t)
    ensures Shaped(r, bits) && Indexed(r)
  {
    Delete(t, bits, item.key, item.pool)
  }

  /** b and a are put, b is deleted, a is put again and deleted, b is put again. */
  function HoleHistory(bits: nat, a: Item, b: Item, again: Item): (t: Table)
    requires bits <= 60
    ensures Shaped(t, bits)
  {
    var two := Insert(Insert(FreshTable(Pow2(bits)), bits, b, 1), bits, a, 2);
    var hole := Remove(two, bits, b);
    Insert(Remove(Insert(hole, bits, again, 3), bits, again), bits, b, 4)
  }

  lemma StopsFirst(t: Table, bits: nat, key: seq<Byte>, pool: nat)
    requires Shaped(t, bits) && Stops(t, bits, key, pool, 0)
    ensures StopAt(t, bits, key, pool, 0) == 0
  {
  }

  lemma StopsSecond(t: Table, bits: nat, key: seq<Byte>, pool: nat)
    requires Shaped(t, bits) && !Stops(t, bits, key, pool, 0) && Stops(t, bits, key, pool, 1)
    ensures StopAt(t, bits, key, pool, 0) == 1
  {
    assert StopAt(t, bits, key, pool, 1) == 1;
  }

  lemma NextDiffers(h: nat, n: nat)
    requires h < n && n >= 2
    ensures (h + 1) % n != h
  {
    if h + 1 < n {
      DivModUnique(h + 1, n, 0, h + 1);
    } else {
      DivModUnique(h + 1, n, 1, 0);
    }
  }

  lemma NextSlotDiffers(bits: nat, key: seq<Byte>, pool: nat)
    requires 0 < bits <= 60
    ensures Slot(bits, key, pool, 0) != Slot(bits, key, pool, 1)
  {
    Pow2Monotone(1, bits);
    assert Pow2(1) == 2;
    HomeFits(bits, key, pool);
    NextDiffers(Home(bits, key, pool), Pow2(bits));
  }

  /** A hole lets a deleted key come back. Two keys share their first slot: b takes it, a goes
      to the next; b is deleted; a is put again, into the hole, and then deleted; b is put
      again. A lookup of a now hits, with the address a had at first. */
  lemma DeletedKeyHitsAgain(bits: nat, a: Item, b: Item, again: Item, now: nat)
    requires 0 < bits <= 60 && a.key != [] && b.key != [] && again.key == a.key && again.pool == a.pool
    requires (a.key != b.key || a.pool != b.pool) && Home(bits, a.key, a.pool) == Home(bits, b.key, b.pool)
    ensures var hit := Lookup(HoleHistory(bits, a, b, again), bits, a.key, a.pool, false, now);
            hit.Found? && hit.entry.lba == a.lba
  {
    var t0 := FreshTable(Pow2(bits));
    var h, g := Slot(bits, a.key, a.pool, 0), Slot(bits, a.key, a.pool, 1);
    NextSlotDiffers(bits, a.key, a.pool);
    var t1 := Fill(t0, h, b, 1);
    StopsFirst(t0, bits, b.key, b.pool);
    assert Insert(t0, bits, b, 1) == t1;
    var t2 := Fill(t1, g, a, 2);
    StopsSecond(t1, bits, a.key, a.pool);
    assert Insert(t1, bits, a, 2) == t2;
    var t3 := t2[h := Vacant(h)];
    assert HeldAt(t2, bits, b.key, b.pool, 0) == 0;
    assert Remove(t2, bits, b) == t3;
    var t4 := Fill(t3, h, again, 3);
    StopsFirst(t3, bits, a.key, a.pool);
    assert Insert(t3, bits, again, 3) == t4;
    assert HeldAt(t4, bits, a.key, a.pool, 0) == 0;
    assert Remove(t4, bits, again) == t3;
    var t6 := Fill(t3, h, b, 4);
    StopsFirst(t3, bits, b.key, b.pool);
    assert Insert(t3, bits, b, 4) == t6;
    StopsSecond(t6, bits, a.key, a.pool);
  }

  /** A fold to one bit is the exclusive or of the lowest two. */
  lemma FoldOne(h: nat, upper: nat, top: nat, next: nat, low: nat)
    requires h == upper * 2 + low && upper == top * 2 + next && next < 2 && low < 2
    ensures Fold(h, 1) == BitXor(next, low)
  {
    assert Pow2(1) == 2;
    FieldsApart(upper, low, 1);
    XorSplit(top, next, upper, low, 1);
    XorStaysInWord(next, low, 1);
    FoldIsLow(h, upper, BitXor(top, upper), BitXor(next, low), 1);
  }

  /** In a cache of two entries "A" and "T" share their first slot. */
  lemma KeysShareSlot()
    ensures Home(1, [0x41], 0) == Home(1, [0x54], 0)
  {
    FnvOfUpperA(0x41);
    FnvOfUpperT(0x54);
    FoldOne(0xaf63_fc4c_8602_22ec, 0x57b1_fe26_4301_1176, 0x2bd8_ff13_2180_88bb, 0, 0);
    FoldOne(0xaf64_094c_8602_3903, 0x57b2_04a6_4301_1c81, 0x2bd9_0253_2180_8e40, 1, 1);
  }

  /** So there the deleted "A" comes back. */
  lemma DeletedKeyIsReached(first: nat, second: nat, now: nat)
    ensures var a, b := Item([0x41], 0, 1, 0, 0, first), Item([0x54], 0, 1, 0, 0, second);
            var hit := Lookup(HoleHistory(1, a, b, a), 1, a.key, a.pool, false, now);
            hit.Found? && hit.entry.lba == first
  {
    KeysShareSlot();
    var a, b := Item([0x41], 0, 1, 0, 0, first), Item([0x54], 0, 1, 0, 0, second);
    assert a.key[0] != b.key[0];
    DeletedKeyHitsAgain(1, a, b, a, now);
  }
}
