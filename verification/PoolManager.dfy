/** Pools (src/kv_pool_manager.cpp): which ids are in use, which are being deleted, the tag
    table, and what of this reaches the media. Bitmaps appear as the sets they stand for. */
module PoolManager {
  import opened Bits
  import opened Record
  import Bitmap

  const TAG_SIZE := 16

  /** A tag as the interface takes it and the table keeps it: sixteen bytes, all zero for no tag. */
  type Entry = e: seq<Byte> | |e| == TAG_SIZE witness [0, 0, 0, 0, 0, 0, 0, 0, 0, 0, 0, 0, 0, 0, 0, 0]

  const NO_TAG: Entry := [0, 0, 0, 0, 0, 0, 0, 0, 0, 0, 0, 0, 0, 0, 0, 0]

  /** A key of the tag map: a C string without its terminator. The empty one means no tag. */
  type Name = seq<Byte>

  /** The bytes up to the first zero, all of them if there is none. */
  function CString(s: seq<Byte>): (name: Name)
    ensures name <= s && 0 !in name && (|name| < |s| ==> s[|name|] == 0)
  {
    if s == [] || s[0] == 0 then [] else [s[0]] + CString(s[1..])
  }

  predicate Terminated(e: Entry) {
    0 in e
  }

  /** The string read from an entry in memory; `beyond` are the bytes that follow it there. */
  function NameOf(e: Entry, beyond: seq<Byte>): Name {
    CString(e + beyond)
  }

  lemma {:induction false} CStringAppend(a: seq<Byte>, b: seq<Byte>)
    ensures CString(a + b) == if 0 in a then CString(a) else a + CString(b)
    decreases |a|
  {
    if a == [] {
      assert a + b == b;
    } else {
      assert (a + b)[1..] == a[1..] + b;
      CStringAppend(a[1..], b);
    }
  }

  /** An entry is read as the same string whatever follows it exactly when one of its bytes is zero. */
  lemma NameFixedIff(e: Entry)
    ensures (forall beyond: seq<Byte> :: NameOf(e, beyond) == CString(e)) <==> Terminated(e)
    ensures !Terminated(e) ==> CString(e) == e
  {
    forall beyond: seq<Byte> ensures NameOf(e, beyond) == if Terminated(e) then CString(e) else e + CString(beyond) {
      CStringAppend(e, beyond);
    }
    assert e + [] == e;
    assert NameOf(e, []) == CString(e);
    if !Terminated(e) {
      assert CString([1]) == [1];
      assert NameOf(e, [1]) == e + [1];
    }
  }

  lemma NameIs(e: Entry, beyond: seq<Byte>)
    ensures NameOf(e, beyond) == if Terminated(e) then CString(e) else e + CString(beyond)
  {
    CStringAppend(e, beyond);
  }

  /** The bytes that follow the local copy of each id's entry when a loop reads it. */
  type Spill = seq<seq<Byte>>

  function Beyond(spill: Spill, i: nat): seq<Byte> {
    if i < |spill| then spill[i] else []
  }

  datatype Sizes = Sizes(maxPools: nat, sectorBits: nat)

  /** In memory: the bitmaps, the pool count, the tag table and the map from tag to pool. */
  datatype Pools = Pools(inUse: set<nat>, deleted: set<nat>, total: int, tags: seq<Entry>, byTag: map<Name, nat>)

  datatype PoolMedia = PoolMedia(inUse: set<nat>, deleted: set<nat>, total: int, tags: seq<Entry>)

  datatype Outcome = PoolId(id: nat) | Done | InvalidInput | IoError

  datatype Step = Step(pools: Pools, media: PoolMedia, outcome: Outcome)

  datatype Status = InUse | NotInUse | DeletionInProgress

  /** check_pool_status of an id the store has a bit for. */
  function StatusOf(p: Pools, id: nat): Status {
    if id !in p.inUse then NotInUse else if id in p.deleted then DeletionInProgress else InUse
  }

  function StatusOnMedia(m: PoolMedia, id: nat): Status {
    if id !in m.inUse then NotInUse else if id in m.deleted then DeletionInProgress else InUse
  }

  /** In use and not marked for deletion. */
  function Live(p: Pools): set<nat> {
    p.inUse - p.deleted
  }

  // ---- Persistence by sector -------------------------------------------------------------

  /** Sector of a bitmap that holds an id's bit. */
  function BitSector(sz: Sizes, id: nat): nat {
    Shr(id, sz.sectorBits + 3)
  }

  /** Sector of the tag table that holds an id's tag. */
  function TagSector(sz: Sizes, id: nat): nat {
    Shr(16 * id, sz.sectorBits)
  }

  /** A bitmap on media after one sector of the bitmap in memory was written over it. */
  function PersistBits(sz: Sizes, onMedia: set<nat>, inMemory: set<nat>, id: nat): set<nat> {
    (set x | x in onMedia && BitSector(sz, x) != BitSector(sz, id))
    + (set x | x in inMemory && BitSector(sz, x) == BitSector(sz, id))
  }

  function PersistTags(sz: Sizes, onMedia: seq<Entry>, inMemory: seq<Entry>, id: nat): (s: seq<Entry>)
    requires |onMedia| == |inMemory|
    ensures |s| == |inMemory|
  {
    seq(|inMemory|, i requires 0 <= i < |inMemory| =>
      if TagSector(sz, i) == TagSector(sz, id) then inMemory[i] else onMedia[i])
  }

  /** The 32-bit word that holds an id's bit lies in the id's sector. */
  lemma WordInBitSector(sz: Sizes, id: nat)
    requires sz.sectorBits >= 2
    ensures Shr(4 * (id / 32), sz.sectorBits) == BitSector(sz, id)
  {
    var word := Pow2(sz.sectorBits - 2);
    assert Pow2(2) == 4 && Pow2(5) == 32;
    Pow2Add(sz.sectorBits - 2, 2);
    Pow2Add(sz.sectorBits - 2, 5);
    SameQuotient(id, word);
  }

  /** A tag's sixteen bytes lie whole in its sector, and in no other. */
  lemma TagInSector(sz: Sizes, id: nat, sector: nat)
    requires sz.sectorBits >= 4
    ensures TagSector(sz, id) == sector <==>
            Shl(sector, sz.sectorBits) <= 16 * id && 16 * id + 16 <= Shl(sector + 1, sz.sectorBits)
  {
    var perSector := Pow2(sz.sectorBits - 4);
    assert Pow2(4) == 16;
    Pow2Add(sz.sectorBits - 4, 4);
    TagQuotient(id, perSector, sector);
  }

  lemma TagQuotient(id: nat, perSector: nat, sector: nat)
    requires perSector > 0
    ensures Quotient(16 * id, perSector * 16) == sector <==>
            sector * (perSector * 16) <= 16 * id && 16 * id + 16 <= (sector + 1) * (perSector * 16)
  {
    var below, above := sector * perSector, (sector + 1) * perSector;
    assert sector * (perSector * 16) == 16 * below && (sector + 1) * (perSector * 16) == 16 * above;
    if below <= id < above {
      QuotientIs(16 * id, perSector * 16, sector);
    }
  }

  lemma SameQuotient(id: nat, word: nat)
    requires word > 0
    ensures Quotient(4 * (id / 32), word * 4) == Quotient(id, word * 32)
  {
    var q := Quotient(id / 32, word);
    var below := q * word;
    assert q * (word * 4) == 4 * below && q * (word * 32) == 32 * below;
    QuotientIs(4 * (id / 32), word * 4, q);
    QuotientIs(id, word * 32, q);
  }

  lemma QuotientIs(x: nat, d: nat, q: nat)
    requires d > 0 && q * d <= x < q * d + d
    ensures Quotient(x, d) == q
  {
    DivModUnique(x, d, q, x - q * d);
  }

  /** Writing the words of one sector of a bitmap is PersistBits on the sets. */
  lemma SectorOfWords(sz: Sizes, onMedia: seq<Word32>, inMemory: seq<Word32>, written: seq<Word32>, id: nat)
    requires sz.sectorBits >= 2 && |onMedia| == |inMemory| == |written|
    requires forall k :: 0 <= k < |written| ==>
               written[k] == if Shr(4 * k, sz.sectorBits) == BitSector(sz, id) then inMemory[k] else onMedia[k]
    ensures Bitmap.Members(written) == PersistBits(sz, Bitmap.Members(onMedia), Bitmap.Members(inMemory), id)
  {
    var expected := PersistBits(sz, Bitmap.Members(onMedia), Bitmap.Members(inMemory), id);
    forall x: nat ensures x in Bitmap.Members(written) <==> x in expected {
      WordInBitSector(sz, x);
      if x / 32 < |written| {
        assert written[x / 32]
            == if Shr(4 * (x / 32), sz.sectorBits) == BitSector(sz, id) then inMemory[x / 32] else onMedia[x / 32];
      }
    }
  }

  // ---- The operations as functions of the state ------------------------------------------

  /** The least id from i on that is free, or n. */
  function LeastFree(s: set<nat>, i: nat, n: nat): (r: nat)
    requires i <= n
    ensures i <= r <= n && (r < n ==> r !in s)
    ensures forall k :: i <= k < r ==> k in s
    decreases n - i
  {
    if i == n || i !in s then i else LeastFree(s, i + 1, n)
  }

  /** The bitmap search finds exactly that id. */
  lemma SearchFindsLeastFree(ws: seq<Word32>, nbits: nat, r: int)
    requires Bitmap.IsFirstClear(ws, nbits, r)
    ensures LeastFree(Bitmap.Members(ws), 0, nbits) == if r == Bitmap.BM_FULL then nbits else r
  {
    forall k: nat | k < (if r == Bitmap.BM_FULL then nbits else r) ensures k in Bitmap.Members(ws) {
      assert Bitmap.HasBit(ws, k);
    }
    assert r != Bitmap.BM_FULL ==> r !in Bitmap.Members(ws);
  }

  function WithNewPool(p: Pools, id: nat, tag: Entry, name: Name): Pools
    requires id < |p.tags|
  {
    Pools(p.inUse + {id}, p.deleted, p.total + 1, p.tags[id := tag],
          if name == [] then p.byTag else p.byTag[name := id])
  }

  predicate Sized(sz: Sizes, p: Pools, m: PoolMedia) {
    |p.tags| == sz.maxPools && |m.tags| == sz.maxPools
  }

  /** create_pool; ok says whether the atomic write succeeds. */
  function Create(sz: Sizes, p: Pools, m: PoolMedia, tag: Entry, name: Name, ok: bool): Step
    requires Sized(sz, p, m)
  {
    if name != [] && name in p.byTag then Step(p, m, PoolId(p.byTag[name]))
    else if p.total > sz.maxPools then Step(p, m, InvalidInput)
    else
      var id := LeastFree(p.inUse, 0, sz.maxPools);
      if id == sz.maxPools then Step(p, m, InvalidInput)
      else
        var p' := WithNewPool(p, id, tag, name);
        if ok then
          Step(p', PoolMedia(PersistBits(sz, m.inUse, p'.inUse, id), m.deleted, p'.total,
                             PersistTags(sz, m.tags, p'.tags, id)), PoolId(id))
        else
          Step(p'.(inUse := p'.inUse - (if id > 0 then {id} else {}), total := p.total), m, IoError)
  }

  /** The pools a delete marks: one, or all in use but the default. */
  function Targets(p: Pools, which: Which): set<nat> {
    match which
    case One(id) => {id} * p.inUse
    case All => p.inUse - {0}
  }

  datatype Which = One(id: nat) | All

  /** Tags wiped and forgotten, bits set in the deleted bitmap. */
  function Marked(p: Pools, ids: set<nat>, spill: Spill): Pools {
    p.(deleted := p.deleted + ids,
       tags := seq(|p.tags|, i requires 0 <= i < |p.tags| => if i in ids then NO_TAG else p.tags[i]),
       byTag := p.byTag - NamesOf(p, ids, spill))
  }

  /** The strings read from the entries of some pools. */
  function NamesOf(p: Pools, ids: set<nat>, spill: Spill): set<Name> {
    set i | i in ids && i < |p.tags| :: NameOf(p.tags[i], Beyond(spill, i))
  }

  lemma NothingMarked(p: Pools, spill: Spill)
    ensures Marked(p, {}, spill) == p
  {
    assert Marked(p, {}, spill).byTag == p.byTag;
  }

  lemma MarkedOneMore(p: Pools, ids: set<nat>, i: nat, spill: Spill)
    requires i < |p.tags| && i !in ids
    ensures var q := Marked(p, ids, spill);
            q.tags[i] == p.tags[i]
            && Marked(p, ids + {i}, spill)
               == q.(deleted := q.deleted + {i}, tags := q.tags[i := NO_TAG],
                     byTag := q.byTag - {NameOf(q.tags[i], Beyond(spill, i))})
  {
    var q, r := Marked(p, ids, spill), Marked(p, ids + {i}, spill);
    assert r.tags == q.tags[i := NO_TAG];
    assert NamesOf(p, ids + {i}, spill) == NamesOf(p, ids, spill) + {NameOf(p.tags[i], Beyond(spill, i))};
    assert r.byTag == q.byTag - {NameOf(q.tags[i], Beyond(spill, i))};
  }

  /** delete_pool, with the refusal of pool 0 its caller makes. */
  function Delete(sz: Sizes, p: Pools, m: PoolMedia, which: Which, spill: Spill, ok: bool): Step {
    if which.One? && (which.id == 0 || which.id !in p.inUse) then Step(p, m, InvalidInput)
    else if which.One? && which.id in p.deleted then Step(p, m, Done)
    else
      var ids := Targets(p, which);
      var p' := Marked(p, ids, spill);
      if !ok then Step(p'.(deleted := p'.deleted - ids), m, IoError)
      else
        Step(p', m.(deleted := if which.One? then PersistBits(sz, m.deleted, p'.deleted, which.id) else p'.deleted),
             Done)
  }

  function Without(p: Pools, ids: set<nat>): Pools {
    p.(inUse := p.inUse - ids, deleted := p.deleted - ids, total := p.total - |ids|)
  }

  /** clear_pool_bitmaps for one pool. */
  function ClearOne(sz: Sizes, p: Pools, m: PoolMedia, id: nat, ok: bool): Step {
    var p' := Without(p, {id});
    if !ok then Step(p', m, IoError)
    else Step(p', m.(inUse := PersistBits(sz, m.inUse, p'.inUse, id),
                     deleted := PersistBits(sz, m.deleted, p'.deleted, id),
                     total := p'.total), Done)
  }

  /** clear_pool_bitmaps for a whole snapshot. */
  function ClearAll(p: Pools, m: PoolMedia, ids: set<nat>, ok: bool): Step {
    var p' := Without(p, ids);
    if !ok then Step(p', m, IoError)
    else Step(p', m.(inUse := p'.inUse, deleted := p'.deleted, total := p'.total), Done)
  }

  // ---- Restore -----------------------------------------------------------------------------

  /** get_pool_tag, of what a restart has read: pools that are not live have no tag. */
  function LiveTag(m: PoolMedia, i: nat): Entry
    requires i < |m.tags|
  {
    if i in m.inUse && i !in m.deleted then m.tags[i] else NO_TAG
  }

  /** The tag map built by restore from the ids below n: the first id of a name keeps it. */
  function TagsBelow(m: PoolMedia, n: nat, spill: Spill): map<Name, nat>
    requires n <= |m.tags|
  {
    if n <= 1 then map[]
    else
      var r, i := TagsBelow(m, n - 1, spill), n - 1;
      var name := NameOf(LiveTag(m, i), Beyond(spill, i));
      if name != [] && name !in r then r[name := i] else r
  }

  /** restore's consistency check. */
  predicate Consistent(m: PoolMedia) {
    m.deleted - {0} <= m.inUse
  }

  lemma Refuted(m: PoolMedia, i: nat)
    requires i >= 1 && i in m.deleted && i !in m.inUse
    ensures !Consistent(m)
  {
    assert i in m.deleted - {0};
  }

  lemma AllChecked(m: PoolMedia, n: nat)
    requires forall i :: i in m.deleted ==> i < n
    requires forall k :: 1 <= k < n && k in m.deleted ==> k in m.inUse
    ensures Consistent(m)
  {
  }

  function Restored(m: PoolMedia, spill: Spill): Pools {
    Pools(m.inUse, m.deleted, m.total, m.tags, TagsBelow(m, |m.tags|, spill))
  }

  predicate Carries(m: PoolMedia, i: nat, name: Name, spill: Spill) {
    i < |m.tags| && i in m.inUse && i !in m.deleted && NameOf(m.tags[i], Beyond(spill, i)) == name
  }

  /** Restore maps a name exactly when it is read from the entry of a live pool other than 0,
      and then to the least such pool. */
  lemma {:induction false} RestoredTags(m: PoolMedia, n: nat, name: Name, spill: Spill)
    requires n <= |m.tags|
    ensures name in TagsBelow(m, n, spill) <==> name != [] && exists i :: 1 <= i < n && Carries(m, i, name, spill)
    ensures name in TagsBelow(m, n, spill) ==>
              var i := TagsBelow(m, n, spill)[name];
              1 <= i < n && Carries(m, i, name, spill) && forall j :: 1 <= j < i ==> !Carries(m, j, name, spill)
  {
    if n > 1 {
      RestoredTags(m, n - 1, name, spill);
      NameIs(NO_TAG, Beyond(spill, n - 1));
      assert NO_TAG[0] == 0;
      assert n - 1 in m.inUse && n - 1 !in m.deleted ==>
               (NameOf(m.tags[n - 1], Beyond(spill, n - 1)) == name <==> Carries(m, n - 1, name, spill));
    }
  }

  // ---- The pool manager itself ---------------------------------------------------------

  class PoolMgr {
    const sz: Sizes
    const tags: array<Entry>
    var inUse: set<nat>
    var deleted: set<nat>
    var total: int
    var byTag: map<Name, nat>
    var media: PoolMedia
    /** The bitmap mutex is left locked for good when a bulk clear cannot be persisted. */
    var stuck: bool

    predicate Valid()
      reads this
    {
      tags.Length == sz.maxPools > 0 && |media.tags| == sz.maxPools
    }

    function State(): (p: Pools)
      reads this, tags
    {
      Pools(inUse, deleted, total, tags[..], byTag)
    }

    /** A new store: the default pool alone, written out whole. */
    constructor (sz: Sizes)
      requires sz.maxPools > 0
      ensures Valid() && this.sz == sz && fresh(tags) && !stuck
      ensures State() == Pools({0}, {}, 1, seq(sz.maxPools, _ => NO_TAG), map[])
      ensures media == PoolMedia({0}, {}, 1, seq(sz.maxPools, _ => NO_TAG))
    {
      this.sz := sz;
      var table := new Entry[sz.maxPools](_ => NO_TAG);
      tags := table;
      inUse, deleted, total, byTag := {0}, {}, 1, map[];
      media := PoolMedia({0}, {}, 1, seq(sz.maxPools, _ => NO_TAG));
      stuck := false;
      new;
      assert tags[..] == seq(sz.maxPools, _ => NO_TAG);
    }

    /** One atomic write; whether it succeeds is the device's choice. */
    method Persist(m: PoolMedia) returns (ok: bool)
      modifies this`media
      ensures media == if ok then m else old(media)
    {
      ok := *;
      if ok {
        media := m;
      }
    }

    /** create_pool; `beyond` is what follows the caller's sixteen bytes. */
    method CreatePool(tag: Entry, beyond: seq<Byte>) returns (res: Outcome, ghost ok: bool)
      requires Valid() && !stuck
      modifies this`inUse, this`total, this`byTag, this`media, tags
      ensures Valid()
      ensures Step(State(), media, res) == Create(sz, old(State()), old(media), tag, NameOf(tag, beyond), ok)
    {
      ok := true;
      var name := NameOf(tag, beyond);
      if name != [] && name in byTag {
        return PoolId(byTag[name]), ok;
      }
      total := total + 1;
      if total - 1 > sz.maxPools {
        total := total - 1;
        return InvalidInput, ok;
      }
      var id := LeastFree(inUse, 0, sz.maxPools);
      if id == sz.maxPools {
        total := total - 1;
        return InvalidInput, ok;
      }
      inUse := inUse + {id};
      tags[id] := tag;
      var written := Persist(PoolMedia(PersistBits(sz, media.inUse, inUse, id), media.deleted, total,
                                       PersistTags(sz, media.tags, tags[..], id)));
      ok := written;
      if name != [] {
        byTag := byTag[name := id];
      }
      if !written {
        if id > 0 {
          inUse := inUse - {id};
        }
        total := total - 1;
        return IoError, ok;
      }
      res := PoolId(id);
    }

    /** The first loop of delete_pool: wipe the tag, forget it, set the bit. */
    method MarkTargets(which: Which, spill: Spill)
      requires Valid() && !stuck && (which.One? ==> which.id in inUse && which.id < sz.maxPools)
      requires forall i :: i in inUse ==> i < sz.maxPools
      modifies this`deleted, this`byTag, tags
      ensures State() == Marked(old(State()), Targets(old(State()), which), spill)
    {
      ghost var p := State();
      ghost var ids := Targets(p, which);
      var i := if which.All? then 1 else which.id;
      ghost var done: set<nat> := {};
      NothingMarked(p, spill);
      var more := i < sz.maxPools;
      while more
        invariant done <= ids && (forall k :: k in ids && k < i ==> k in done) && (forall k :: k in done ==> k < i)
        invariant more ==> i < sz.maxPools
        invariant !more ==> i >= sz.maxPools || (which.One? && i == which.id + 1)
        invariant which.One? ==> i >= which.id && (more ==> i == which.id)
        invariant which.All? ==> i >= 1
        invariant State() == Marked(p, done, spill)
        decreases more, sz.maxPools - i
      {
        if i in inUse {
          var tag := tags[i];
          MarkedOneMore(p, done, i, spill);
          tags[i] := NO_TAG;
          byTag := byTag - {NameOf(tag, Beyond(spill, i))};
          deleted := deleted + {i};
          done := done + {i};
        }
        i := i + 1;
        more := i < sz.maxPools && which.All?;
      }
      assert done == ids;
    }

    /** The loop that reverts the marks when they could not be persisted. */
    method RevertMarks(which: Which)
      requires Valid() && !stuck && (which.One? ==> which.id in inUse)
      requires forall i :: i in inUse ==> i < sz.maxPools
      modifies this`deleted
      ensures deleted == old(deleted) - Targets(old(State()), which)
    {
      ghost var ids := Targets(State(), which);
      ghost var done: set<nat> := {};
      var i := if which.All? then 1 else which.id;
      var more := i < sz.maxPools;
      while more
        invariant done <= ids && (forall k :: k in ids && k < i ==> k in done) && (forall k :: k in done ==> k < i)
        invariant more ==> i < sz.maxPools
        invariant !more ==> i >= sz.maxPools || (which.One? && i == which.id + 1)
        invariant which.One? ==> i >= which.id && (more ==> i == which.id)
        invariant which.All? ==> i >= 1
        invariant deleted == old(deleted) - done
        decreases more, sz.maxPools - i
      {
        if i in inUse {
          deleted := deleted - {i};
          done := done + {i};
        }
        i := i + 1;
        more := i < sz.maxPools && which.All?;
      }
      assert done == ids;
    }

    /** delete_pool. */
    method DeletePool(which: Which, spill: Spill) returns (res: Outcome, ghost ok: bool)
      requires Valid() && !stuck && forall i :: i in inUse ==> i < sz.maxPools
      modifies this`deleted, this`byTag, this`media, tags
      ensures Valid()
      ensures Step(State(), media, res) == Delete(sz, old(State()), old(media), which, spill, ok)
    {
      ok := true;
      if which.One? {
        if which.id == 0 || which.id !in inUse {
          return InvalidInput, ok;
        }
        if which.id in deleted {
          return Done, ok;
        }
      }
      MarkTargets(which, spill);
      var written := Persist(media.(deleted := if which.One? then PersistBits(sz, media.deleted, deleted, which.id)
                                               else deleted));
      ok := written;
      if !written {
        RevertMarks(which);
        return IoError, ok;
      }
      res := Done;
    }

    /** clear_pool_bitmaps for one pool. */
    method ClearPool(id: nat) returns (res: Outcome, ghost ok: bool)
      requires Valid() && !stuck
      modifies this`inUse, this`deleted, this`total, this`media
      ensures Valid()
      ensures Step(State(), media, res) == ClearOne(sz, old(State()), old(media), id, ok)
    {
      deleted := deleted - {id};
      inUse := inUse - {id};
      total := total - 1;
      var written := Persist(media.(inUse := PersistBits(sz, media.inUse, inUse, id),
                                    deleted := PersistBits(sz, media.deleted, deleted, id), total := total));
      ok := written;
      res := if written then Done else IoError;
    }

    /** clear_pool_bitmaps for a snapshot: both of its branches leave the set difference. A
        failed write returns with the mutex held. */
    method ClearSnapshot(ids: set<nat>) returns (res: Outcome, ghost ok: bool)
      requires Valid() && !stuck && 0 !in ids && forall i :: i in ids ==> i < sz.maxPools
      modifies this`inUse, this`deleted, this`total, this`media, this`stuck
      ensures Valid() && (stuck <==> !ok)
      ensures Step(State(), media, res) == ClearAll(old(State()), old(media), ids, ok)
    {
      var emptied := deleted == ids;
      if emptied {
        deleted := {};
      }
      var i := 1;
      ghost var done: set<nat> := {};
      while i < sz.maxPools
        invariant 1 <= i && done <= ids && (forall k :: k in ids && k < i ==> k in done)
                  && (forall k :: k in done ==> k < i)
        invariant inUse == old(inUse) - done && total == old(total) - |done|
        invariant deleted == if emptied then {} else old(deleted) - done
        invariant media == old(media) && !stuck
      {
        if i in ids {
          if !emptied {
            deleted := deleted - {i};
          }
          inUse := inUse - {i};
          total := total - 1;
          assert i !in done;
          done := done + {i};
        }
        i := i + 1;
      }
      assert done == ids;
      var written := Persist(media.(inUse := inUse, deleted := deleted, total := total));
      ok := written;
      if !written {
        stuck := true;
        return IoError, ok;
      }
      res := Done;
    }

    /** The reads of restore. */
    method Load()
      requires Valid()
      modifies this`inUse, this`deleted, this`total, this`byTag, tags
      ensures forall spill: Spill :: Loaded(1, spill)
    {
      inUse, deleted, total, byTag := media.inUse, media.deleted, media.total, map[];
      forall k | 0 <= k < tags.Length {
        tags[k] := media.tags[k];
      }
      assert tags[..] == media.tags;
    }

    /** What the media hold is in memory, with the names of the ids below n in the map. */
    ghost predicate Loaded(n: nat, spill: Spill)
      reads this, tags
    {
      n <= |media.tags| && State() == Pools(media.inUse, media.deleted, media.total, media.tags,
                                            TagsBelow(media, n, spill))
    }

    /** One entry of restore's loop into the map. */
    method AddTag(i: nat, spill: Spill)
      requires Valid() && 1 <= i < sz.maxPools && Loaded(i, spill)
      modifies this`byTag
      ensures Loaded(i + 1, spill)
    {
      var tag := if i in inUse && i !in deleted then tags[i] else NO_TAG;
      assert tag == LiveTag(media, i);
      var name := NameOf(tag, Beyond(spill, i));
      if name != [] && name !in byTag {
        byTag := byTag[name := i];
      }
    }

    /** restore: loads what the media hold and rebuilds the tag map, stopping at the first id
        that is marked but not in use. */
    method Restore(spill: Spill) returns (consistent: bool)
      requires Valid()
      requires forall i :: i in media.deleted ==> i < sz.maxPools
      modifies this`inUse, this`deleted, this`total, this`byTag, tags
      ensures consistent <==> Consistent(media)
      ensures consistent ==> State() == Restored(media, spill)
    {
      Load();
      var i := 1;
      while i < sz.maxPools
        invariant 1 <= i <= sz.maxPools
        invariant Loaded(i, spill)
        invariant forall k :: 1 <= k < i && k in media.deleted ==> k in media.inUse
      {
        AddTag(i, spill);
        if i in deleted {
          if i !in inUse {
            Refuted(media, i);
            return false;
          }
        }
        i := i + 1;
      }
      AllChecked(media, sz.maxPools);
      consistent := true;
    }
  }
}
