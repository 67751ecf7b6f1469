/** The collision cache (src/kv_cache.cpp): a hash table from key and pool to address, probed
    linearly over a short window, with a context handed from a lookup to the insertion after it. */
module Cache {
  import opened Bits
  import opened HashFunc

  const COLLISION_LIMIT := 8

  /** Distinct slots that eight probes visit: the first is visited twice. */
  const WINDOW := 7

  /** An entry is free when its key is empty. */
  datatype Entry = Entry(index: nat, key: seq<Byte>, pool: nat, valueLen: nat, expiry: nat, genCount: nat, lba: nat,
                         ts: nat)
  {
    predicate Free() {
      key == []
    }

    predicate Is(k: seq<Byte>, p: nat) {
      key == k && pool == p
    }
  }

  function Vacant(i: nat): Entry {
    Entry(i, [], 0, 0, 0, 0, 0, 0)
  }

  type Table = seq<Entry>

  function FreshTable(n: nat): Table {
    seq(n, i requires 0 <= i < n => Vacant(i))
  }

  /** What a lookup leaves for the insertion: the entry found, a free slot, or a victim. */
  datatype Context = NotFound | EmptySlot(index: nat) | Found(entry: Entry, expired: bool) | Victim(entry: Entry)

  datatype Item = Item(key: seq<Byte>, pool: nat, valueLen: nat, expiry: nat, genCount: nat, lba: nat)

  function HashCfg(bits: nat): Config {
    Config(bits, 0)
  }

  function Home(bits: nat, key: seq<Byte>, pool: nat): nat
    requires bits <= 60
  {
    KeyHashOf(HashCfg(bits), key, pool, bits, false)
  }

  /** The i-th slot of a key's window. */
  function Slot(bits: nat, key: seq<Byte>, pool: nat, i: nat): (s: nat)
    requires bits <= 60
    ensures s < Pow2(bits)
  {
    (Home(bits, key, pool) + i) % Pow2(bits)
  }

  lemma HomeFits(bits: nat, key: seq<Byte>, pool: nat)
    requires bits <= 60
    ensures Home(bits, key, pool) < Pow2(bits) && Slot(bits, key, pool, 0) == Home(bits, key, pool)
  {
    FoldedFits(HashCfg(bits), bits, key, pool);
    var h := Home(bits, key, pool);
    DivModUnique(h, Pow2(bits), 0, h);
  }

  /** The first slot of a key: the hash of the key and the bytes of a pool id other than 0, folded
      to the cache's bits. No records are stepped over here. */
  lemma HomeIs(bits: nat, key: seq<Byte>, pool: nat, b0: Byte, b1: Byte, b2: Byte, b3: Byte, upper: nat, low: nat)
    requires bits <= 60 && key != [] && low < Pow2(bits)
    requires pool == b0 + 0x100 * b1 + 0x1_0000 * b2 + 0x100_0000 * b3
    requires FnvBytes(FNV_BASIS, if pool == 0 then key else key + [b0, b1, b2, b3]) == Shl(upper, bits) + low
    ensures Home(bits, key, pool) == BitXor(upper, low) % Pow2(bits)
  {
    var hashed := if pool == 0 then key else key + [b0, b1, b2, b3];
    PoolIsSuffix(HashCfg(bits), key, pool, b0, b1, b2, b3);
    PoolIsSuffix(HashCfg(bits), hashed, 0, 0, 0, 0, 0);
    FnvFitsWord(FNV_BASIS, hashed);
    FoldXorsFields(FnvBytes(FNV_BASIS, hashed), upper, low, bits);
  }

  /** The n-th collision address of a key is n slots on. */
  lemma CollisionIsSlot(bits: nat, key: seq<Byte>, pool: nat, n: nat)
    requires bits <= 60 && key != [] && n <= COLLISION_LIMIT
    ensures ResolveColl(HashCfg(bits), key, Home(bits, key, pool), n, bits, false) == Slot(bits, key, pool, n)
  {
    HomeFits(bits, key, pool);
    Pow2Of64();
    Pow2Monotone(bits, 60);
    Pow2Add(60, 4);
    assert Pow2(4) == 16;
    if bits == 0 {
      DivModUnique(Home(bits, key, pool) + n, 1, Home(bits, key, pool) + n, 0);
    }
  }

  predicate Shaped(t: Table, bits: nat) {
    bits <= 60 && |t| == Pow2(bits)
  }

  /** Where a probe for the key stops: at a free slot or its own entry; WINDOW if at neither. */
  predicate Stops(t: Table, bits: nat, key: seq<Byte>, pool: nat, i: nat)
    requires Shaped(t, bits)
  {
    t[Slot(bits, key, pool, i)].Free() || t[Slot(bits, key, pool, i)].Is(key, pool)
  }

  function StopAt(t: Table, bits: nat, key: seq<Byte>, pool: nat, i: nat): (r: nat)
    requires Shaped(t, bits) && i <= WINDOW
    ensures i <= r <= WINDOW && (r < WINDOW ==> Stops(t, bits, key, pool, r))
    ensures forall j :: i <= j < r ==> !Stops(t, bits, key, pool, j)
    decreases WINDOW - i
  {
    if i == WINDOW || Stops(t, bits, key, pool, i) then i else StopAt(t, bits, key, pool, i + 1)
  }

  /** Of the first n slots of the window, the one stamped earliest; the first such. */
  function Oldest(t: Table, bits: nat, key: seq<Byte>, pool: nat, n: nat): (r: nat)
    requires Shaped(t, bits) && n > 0
    ensures r < n
    ensures forall j :: 0 <= j < n ==> t[Slot(bits, key, pool, r)].ts <= t[Slot(bits, key, pool, j)].ts
  {
    if n == 1 then 0
    else
      var r := Oldest(t, bits, key, pool, n - 1);
      if t[Slot(bits, key, pool, n - 1)].ts < t[Slot(bits, key, pool, r)].ts then n - 1 else r
  }

  /** Which offset the n-th of the eight probes looks at. */
  function Offset(n: nat): nat {
    if n == 0 then 0 else n - 1
  }

  predicate OldestSoFar(t: Table, bits: nat, key: seq<Byte>, pool: nat, n: nat, oldest: nat)
    requires Shaped(t, bits)
  {
    n > 0 ==> oldest == Slot(bits, key, pool, Oldest(t, bits, key, pool, if Offset(n) == 0 then 1 else Offset(n)))
  }

  /** A probe that does not stop keeps the loop's account of what it has passed. */
  lemma ProbePasses(t: Table, bits: nat, key: seq<Byte>, pool: nat, n: nat, oldest: nat)
    requires Shaped(t, bits) && n < COLLISION_LIMIT && oldest < |t| && !Stops(t, bits, key, pool, Offset(n))
    requires OldestSoFar(t, bits, key, pool, n, oldest)
    ensures StopAt(t, bits, key, pool, Offset(n)) == StopAt(t, bits, key, pool, Offset(n + 1))
    ensures var cur := Slot(bits, key, pool, Offset(n));
            OldestSoFar(t, bits, key, pool, n + 1, if n == 0 || t[cur].ts < t[oldest].ts then cur else oldest)
  {
  }

  function Lookup(t: Table, bits: nat, key: seq<Byte>, pool: nat, expiring: bool, now: nat): Context
    requires Shaped(t, bits)
  {
    var s := StopAt(t, bits, key, pool, 0);
    if s == WINDOW then Victim(t[Slot(bits, key, pool, Oldest(t, bits, key, pool, WINDOW))])
    else
      var e := t[Slot(bits, key, pool, s)];
      if e.Free() then EmptySlot(Slot(bits, key, pool, s)) else Found(e, expiring && e.expiry != 0 && now > e.expiry)
  }

  /** What the loop makes of a probe that stops. */
  lemma ProbeStops(t: Table, bits: nat, key: seq<Byte>, pool: nat, n: nat, expiring: bool, now: nat)
    requires Shaped(t, bits) && n < COLLISION_LIMIT && Stops(t, bits, key, pool, Offset(n))
    requires StopAt(t, bits, key, pool, 0) == StopAt(t, bits, key, pool, Offset(n))
    ensures var cur := Slot(bits, key, pool, Offset(n));
            Lookup(t, bits, key, pool, expiring, now)
            == if t[cur].Free() then EmptySlot(cur) else Found(t[cur], expiring && 0 < t[cur].expiry < now)
  {
  }

  /** And of one that never does. */
  lemma ProbeRunsOut(t: Table, bits: nat, key: seq<Byte>, pool: nat, oldest: nat, expiring: bool, now: nat)
    requires Shaped(t, bits) && oldest < |t| && OldestSoFar(t, bits, key, pool, COLLISION_LIMIT, oldest)
    requires StopAt(t, bits, key, pool, 0) == StopAt(t, bits, key, pool, Offset(COLLISION_LIMIT))
    ensures Lookup(t, bits, key, pool, expiring, now) == Victim(t[oldest])
  {
  }

  function Fill(t: Table, i: nat, item: Item, now: nat): Table
    requires i < |t|
  {
    t[i := Entry(t[i].index, item.key, item.pool, item.valueLen, item.expiry, item.genCount, item.lba, now)]
  }

  /** The slot an insertion takes when no context decides it. */
  function PlaceFor(t: Table, bits: nat, key: seq<Byte>, pool: nat): (i: nat)
    requires Shaped(t, bits)
    ensures i < |t|
  {
    var s := StopAt(t, bits, key, pool, 0);
    Slot(bits, key, pool, if s == WINDOW then Oldest(t, bits, key, pool, WINDOW) else s)
  }

  /** A context names slots of the table. */
  predicate ContextFits(t: Table, ctx: Context) {
    match ctx
    case NotFound => true
    case EmptySlot(i) => i < |t|
    case Found(e, _) => e.index < |t|
    case Victim(e) => e.index < |t|
  }

  /** kv_cache_put. Through a context that found the key only length and stamp are renewed. */
  function Put(t: Table, bits: nat, ctx: Context, item: Item, now: nat): Table
    requires Shaped(t, bits) && ContextFits(t, ctx)
  {
    if ctx.Found? && t[ctx.entry.index].Is(item.key, item.pool) then
      t[ctx.entry.index := t[ctx.entry.index].(valueLen := item.valueLen, ts := now)]
    else if ctx.EmptySlot? && t[ctx.index].Free() then Fill(t, ctx.index, item, now)
    else if ctx.Victim? && t[ctx.entry.index].Is(ctx.entry.key, ctx.entry.pool) then Fill(t, ctx.entry.index, item, now)
    else Fill(t, PlaceFor(t, bits, item.key, item.pool), item, now)
  }

  /** First slot from offset i on that holds the key, past free slots too. */
  function HeldAt(t: Table, bits: nat, key: seq<Byte>, pool: nat, i: nat): (r: nat)
    requires Shaped(t, bits) && i <= WINDOW
    ensures i <= r <= WINDOW && (r < WINDOW ==> t[Slot(bits, key, pool, r)].Is(key, pool))
    ensures forall j :: i <= j < r ==> !t[Slot(bits, key, pool, j)].Is(key, pool)
    decreases WINDOW - i
  {
    if i == WINDOW || t[Slot(bits, key, pool, i)].Is(key, pool) then i else HeldAt(t, bits, key, pool, i + 1)
  }

  /** kv_cache_delete of one key. */
  function Delete(t: Table, bits: nat, key: seq<Byte>, pool: nat): Table
    requires Shaped(t, bits)
  {
    var r := HeldAt(t, bits, key, pool, 0);
    if r == WINDOW then t
    else var i := Slot(bits, key, pool, r); t[i := Vacant(t[i].index)]
  }

  /** Every entry that satisfies p is emptied. */
  function Purge(t: Table, p: Entry -> bool): (r: Table)
    ensures |r| == |t|
  {
    seq(|t|, i requires 0 <= i < |t| => if !t[i].Free() && p(t[i]) then Vacant(i) else t[i])
  }

  // ---- The cache itself ------------------------------------------------------------------

  class KvCache {
    const bits: nat
    const table: array<Entry>

    predicate Valid()
      reads table
    {
      bits <= 60 && table.Length == Pow2(bits)
    }

    constructor (bits: nat)
      requires bits <= 60
      ensures Valid() && this.bits == bits && fresh(table)
      ensures table[..] == FreshTable(Pow2(bits))
    {
      this.bits := bits;
      table := new Entry[Pow2(bits)]((i: nat) => Vacant(i));
      new;
      assert table[..] == FreshTable(Pow2(bits));
    }

    /** Slot of the key's n-th collision. */
    function Collision(key: seq<Byte>, pool: nat, init: nat, n: nat): (s: nat)
      requires bits <= 60 && key != [] && n <= COLLISION_LIMIT
      ensures init == Home(bits, key, pool) ==> s == Slot(bits, key, pool, n)
    {
      if init == Home(bits, key, pool) then CollisionIsSlot(bits, key, pool, n);
        ResolveColl(HashCfg(bits), key, init, n, bits, false)
      else ResolveColl(HashCfg(bits), key, init, n, bits, false)
    }

    /** kv_cache_get: eight probes, the second again at the first slot. A free slot holds the
        probe where it is. */
    method Get(key: seq<Byte>, pool: nat, expiring: bool, now: nat) returns (ctx: Context)
      requires Valid() && key != []
      ensures ctx == Lookup(table[..], bits, key, pool, expiring, now)
    {
      ctx := NotFound;
      var init := KeyHash(HashCfg(bits), key, pool, bits, false);
      HomeFits(bits, key, pool);
      var hashItr, cur: nat, oldest: nat := 0, init, 0;
      ghost var t := table[..];
      while hashItr < COLLISION_LIMIT
        invariant hashItr <= COLLISION_LIMIT && oldest < table.Length && cur < table.Length
        invariant ctx.NotFound? ==>
                    cur == Slot(bits, key, pool, Offset(hashItr)) && OldestSoFar(t, bits, key, pool, hashItr, oldest)
                    && StopAt(t, bits, key, pool, 0) == StopAt(t, bits, key, pool, Offset(hashItr))
        invariant !ctx.NotFound? ==> table[cur].Free() && ctx == Lookup(t, bits, key, pool, expiring, now)
      {
        var e := table[cur];
        if !e.Free() {
          if e.Is(key, pool) {
            ProbeStops(t, bits, key, pool, hashItr, expiring, now);
            return Found(e, expiring && e.expiry != 0 && now > e.expiry);
          }
          ProbePasses(t, bits, key, pool, hashItr, oldest);
          if hashItr == 0 || e.ts < table[oldest].ts {
            oldest := cur;
          }
          cur := Collision(key, pool, init, hashItr);
        } else if ctx.NotFound? {
          ProbeStops(t, bits, key, pool, hashItr, expiring, now);
          ctx := EmptySlot(cur);
        }
        hashItr := hashItr + 1;
      }
      if ctx.NotFound? {
        ProbeRunsOut(t, bits, key, pool, oldest, expiring, now);
        ctx := Victim(table[oldest]);
      }
    }

    /** kv_cache_put. */
    method Insert(ctx: Context, item: Item, now: nat)
      requires Valid() && item.key != [] && ContextFits(table[..], ctx)
      modifies table
      ensures Valid() && table[..] == Put(old(table[..]), bits, ctx, item, now)
    {
      if ctx.Found? {
        var i := ctx.entry.index;
        if table[i].Is(item.key, item.pool) {
          table[i] := table[i].(valueLen := item.valueLen, ts := now);
          return;
        }
      } else if ctx.EmptySlot? {
        if table[ctx.index].Free() {
          SetEntry(ctx.index, item, now);
          return;
        }
      } else if ctx.Victim? {
        if table[ctx.entry.index].Is(ctx.entry.key, ctx.entry.pool) {
          SetEntry(ctx.entry.index, item, now);
          return;
        }
      }
      var i := FindPlace(item.key, item.pool);
      SetEntry(i, item, now);
    }

    /** kv_cache_entry_set. */
    method SetEntry(i: nat, item: Item, now: nat)
      requires i < table.Length
      modifies table
      ensures table[..] == Fill(old(table[..]), i, item, now)
    {
      table[i] := Entry(table[i].index, item.key, item.pool, item.valueLen, item.expiry, item.genCount, item.lba, now);
    }

    /** The probe loop of kv_cache_put and its choice of a victim. */
    method FindPlace(key: seq<Byte>, pool: nat) returns (cur: nat)
      requires Valid() && key != []
      ensures cur == PlaceFor(table[..], bits, key, pool)
    {
      var init := KeyHash(HashCfg(bits), key, pool, bits, false);
      HomeFits(bits, key, pool);
      var hashItr, oldest := 0, 0;
      cur := init;
      ghost var t := table[..];
      while hashItr < COLLISION_LIMIT
        invariant hashItr <= COLLISION_LIMIT && oldest < table.Length && cur == Slot(bits, key, pool, Offset(hashItr))
        invariant OldestSoFar(t, bits, key, pool, hashItr, oldest)
        invariant StopAt(t, bits, key, pool, 0) == StopAt(t, bits, key, pool, Offset(hashItr))
      {
        if table[cur].Free() || table[cur].Is(key, pool) {
          return;
        }
        ProbePasses(t, bits, key, pool, hashItr, oldest);
        if hashItr == 0 || table[cur].ts < table[oldest].ts {
          oldest := cur;
        }
        cur := Collision(key, pool, init, hashItr);
        hashItr := hashItr + 1;
      }
      cur := oldest;
    }

    /** kv_cache_delete of one key: it looks past free slots. */
    method Remove(key: seq<Byte>, pool: nat) returns (found: bool)
      requires Valid() && key != []
      modifies table
      ensures Valid() && table[..] == Delete(old(table[..]), bits, key, pool)
      ensures found <==> HeldAt(old(table[..]), bits, key, pool, 0) < WINDOW
    {
      var init := KeyHash(HashCfg(bits), key, pool, bits, false);
      HomeFits(bits, key, pool);
      var hashItr, cur := 0, init;
      ghost var off := 0;
      while hashItr < COLLISION_LIMIT
        invariant hashItr <= COLLISION_LIMIT && off == (if hashItr == 0 then 0 else hashItr - 1)
        invariant cur == Slot(bits, key, pool, off) && table[..] == old(table[..])
        invariant HeldAt(table[..], bits, key, pool, 0) == HeldAt(table[..], bits, key, pool, off)
      {
        if table[cur].Is(key, pool) {
          table[cur] := Vacant(table[cur].index);
          return true;
        }
        off := if hashItr == 0 then 0 else off + 1;
        cur := Collision(key, pool, init, hashItr);
        hashItr := hashItr + 1;
      }
      found := false;
    }

    /** The purges: one pass over the table. */
    method PurgeWhere(p: Entry -> bool)
      requires Valid()
      modifies table
      ensures Valid() && table[..] == Purge(old(table[..]), p)
    {
      var i := 0;
      while i < table.Length
        invariant i <= table.Length
        invariant forall k :: 0 <= k < i ==> table[k] == Purge(old(table[..]), p)[k]
        invariant forall k :: i <= k < table.Length ==> table[k] == old(table[k])
      {
        if !table[i].Free() && p(table[i]) {
          table[i] := Vacant(i);
        }
        i := i + 1;
      }
    }

    /** kv_cache_delete of a set of addresses: one pass over the table for each. */
    method DeleteLbas(lbas: set<nat>)
      requires Valid()
      modifies table
      ensures Valid() && table[..] == Purge(old(table[..]), (e: Entry) => e.lba in lbas)
    {
      var rest := lbas;
      ghost var done: set<nat> := {};
      assert table[..] == Purge(table[..], (e: Entry) => e.lba in done);
      while rest != {}
        invariant done + rest == lbas
        invariant table[..] == Purge(old(table[..]), (e: Entry) => e.lba in done)
      {
        var lba :| lba in rest;
        PurgeWhere((e: Entry) => e.lba == lba);
        assert table[..] == Purge(old(table[..]), (e: Entry) => e.lba in done + {lba});
        rest, done := rest - {lba}, done + {lba};
      }
      assert done == lbas;
    }

    method DeletePools(pools: set<nat>)
      requires Valid()
      modifies table
      ensures Valid() && table[..] == Purge(old(table[..]), (e: Entry) => e.pool in pools)
    {
      PurgeWhere((e: Entry) => e.pool in pools);
    }

    method DeleteAllPools()
      requires Valid()
      modifies table
      ensures Valid() && table[..] == Purge(old(table[..]), (e: Entry) => e.pool != 0)
    {
      PurgeWhere((e: Entry) => e.pool != 0);
    }

    method DeleteAll()
      requires Valid()
      modifies table
      ensures Valid() && table[..] == Purge(old(table[..]), (e: Entry) => true)
    {
      PurgeWhere((e: Entry) => true);
    }
  }
}
