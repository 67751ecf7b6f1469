/** Runs of the pool protocol that go wrong, step by step: each shows that a condition of the
    theorems in PoolLifecycle cannot be dropped. */
module PoolHazards {
  import opened Bits
  import opened PoolManager
  import opened PoolLifecycle

  /** A create without a tag. */
  function Untagged(ok: bool): Event {
    Creating(NO_TAG, [], ok)
  }

  lemma NoTagIsEmpty(spill: seq<Byte>)
    ensures NameOf(NO_TAG, spill) == []
  {
    assert NO_TAG[0] == 0;
  }

  /** A store of untagged pools: bitmaps and count in memory, and the same on media. */
  function Plain(sz: Sizes, inUse: set<nat>, deleted: set<nat>, total: int, m: PoolMedia, thread: Thread,
                 keys: set<nat>): World {
    World(sz, Pools(inUse, deleted, total, Blank(sz.maxPools), map[]), m, thread, keys, false)
  }

  function PlainMedia(sz: Sizes, inUse: set<nat>, deleted: set<nat>, total: int): PoolMedia {
    PoolMedia(inUse, deleted, total, Blank(sz.maxPools))
  }

  /** The first eight ids share a sector. */
  lemma SmallIds(sz: Sizes, a: set<nat>, b: set<nat>, id: nat)
    requires id < 8 && forall x :: x in a || x in b ==> x < 8
    ensures PersistBits(sz, a, b, id) == b
  {
    Pow2Monotone(3, sz.sectorBits + 3);
    assert Pow2(3) == 8;
    forall x | x in a + b + {id} ensures BitSector(sz, x) == 0 {
      QuotientIs(x, Pow2(sz.sectorBits + 3), 0);
    }
  }

  lemma Creates(w: World, id: nat)
    requires w.p.tags == w.m.tags == Blank(w.sz.maxPools) && w.p.byTag == map[] && !w.stuck
    requires id < w.sz.maxPools && id < 8 && w.p.total <= w.sz.maxPools && id !in w.p.inUse
    requires forall k: nat :: k < id ==> k in w.p.inUse
    requires forall x :: x in w.m.inUse || x in w.p.inUse ==> x < 8
    ensures Legal(w, Untagged(true)) && PoolStep(w, Untagged(true)).outcome == PoolId(id)
    ensures Next(w, Untagged(true))
            == Plain(w.sz, w.p.inUse + {id}, w.p.deleted, w.p.total + 1,
                     PlainMedia(w.sz, w.p.inUse + {id}, w.m.deleted, w.p.total + 1), w.thread, w.keys)
  {
    assert LeastFree(w.p.inUse, 0, w.sz.maxPools) == id;
    SmallIds(w.sz, w.m.inUse, w.p.inUse + {id}, id);
    NoTagIsEmpty([]);
    assert w.p.tags[id := NO_TAG] == w.p.tags;
    assert PersistTags(w.sz, w.m.tags, w.p.tags, id) == w.p.tags;
  }

  lemma Deletes(w: World, which: Which, ids: set<nat>, ok: bool)
    requires w.p.tags == w.m.tags == Blank(w.sz.maxPools) && w.p.byTag == map[] && !w.stuck
    requires ids == Targets(w.p, which) && (which.One? ==> which.id != 0 && which.id in Live(w.p) && which.id < 8)
    requires forall x :: x in w.m.deleted || x in w.p.inUse || x in w.p.deleted ==> x < 8
    ensures Legal(w, Deleting(which, [], ok))
    ensures Next(w, Deleting(which, [], ok))
            == if ok then Plain(w.sz, w.p.inUse, w.p.deleted + ids, w.p.total, w.m.(deleted := w.p.deleted + ids),
                                w.thread, w.keys)
               else Plain(w.sz, w.p.inUse, w.p.deleted + ids - ids, w.p.total, w.m, w.thread, w.keys)
  {
    assert Marked(w.p, ids, []).tags == w.p.tags;
    assert Marked(w.p, ids, []).byTag == map[];
    if which.One? {
      SmallIds(w.sz, w.m.deleted, w.p.deleted + ids, which.id);
    }
  }

  ghost predicate Reachable(sz: Sizes, w: World) {
    exists es :: LegalRun(Formatted(sz), es) && After(Formatted(sz), es) == w
  }

  lemma {:induction false} RunThen(w: World, es: seq<Event>, e: Event)
    requires LegalRun(w, es) && Legal(After(w, es), e)
    ensures LegalRun(w, es + [e]) && After(w, es + [e]) == Next(After(w, es), e)
    decreases |es|
  {
    if es == [] {
      assert [e][1..] == [];
    } else {
      RunThen(Next(w, es[0]), es[1..], e);
      assert (es + [e])[1..] == es[1..] + [e];
    }
  }

  lemma Reaches(sz: Sizes, w: World, e: Event, w': World)
    requires Reachable(sz, w) && Legal(w, e) && Next(w, e) == w'
    ensures Reachable(sz, w')
  {
    var es :| LegalRun(Formatted(sz), es) && After(Formatted(sz), es) == w;
    RunThen(Formatted(sz), es, e);
  }

  lemma StartIsReachable(sz: Sizes)
    ensures Reachable(sz, Formatted(sz))
  {
    assert LegalRun(Formatted(sz), []) && After(Formatted(sz), []) == Formatted(sz);
  }

  /** A store with one pool, which is marked. */
  lemma OneMarkedPool(sz: Sizes, which: Which)
    requires sz.maxPools >= 2 && which in {One(1), All}
    ensures Reachable(sz, Plain(sz, {0, 1}, {1}, 2, PlainMedia(sz, {0, 1}, {1}, 2), Idle, {}))
  {
    var w1 := Plain(sz, {0, 1}, {}, 2, PlainMedia(sz, {0, 1}, {}, 2), Idle, {});
    StartIsReachable(sz);
    Creates(Formatted(sz), 1);
    assert {0} + {1} == {0, 1};
    Reaches(sz, Formatted(sz), Untagged(true), w1);
    assert Targets(w1.p, which) == {1};
    Deletes(w1, which, {1}, true);
    assert {} + {1} == {1};
    Reaches(sz, w1, Deleting(which, [], true), Plain(sz, {0, 1}, {1}, 2, PlainMedia(sz, {0, 1}, {1}, 2), Idle, {}));
  }

  /** The thread takes its snapshot: every pool is to go. */
  lemma SnapshotsAll(sz: Sizes)
    requires sz.maxPools >= 2
    ensures Reachable(sz, Plain(sz, {0, 1}, {1}, 2, PlainMedia(sz, {0, 1}, {1}, 2), PassAll({1}), {}))
  {
    OneMarkedPool(sz, All);
    var w := Plain(sz, {0, 1}, {1}, 2, PlainMedia(sz, {0, 1}, {1}, 2), Idle, {});
    assert {0, 1} - {0} == {1};
    Reaches(sz, w, Snapshotting, w.(thread := PassAll({1})));
  }

  /** A delete-all that fails after the thread has trimmed a marked pool unmarks it: a put gets
      in, the clear takes the pool away, and the next create hands its pair to a new owner. */
  lemma UnmarkedPoolLeaksKeys(sz: Sizes) returns (w: World)
    requires sz.maxPools >= 2
    ensures Reachable(sz, w) && Legal(w, Untagged(true)) && PoolStep(w, Untagged(true)).outcome == PoolId(1)
    ensures 1 !in w.p.inUse && 1 in w.keys
  {
    var media := PlainMedia(sz, {0, 1}, {1}, 2);
    var w3 := Plain(sz, {0, 1}, {1}, 2, media, PassAll({1}), {});
    var w4 := w3.(thread := ClearAllOf({1}));
    var w5 := Plain(sz, {0, 1}, {}, 2, media, ClearAllOf({1}), {});
    var w6 := w5.(keys := {1});
    SnapshotsAll(sz);
    Reaches(sz, w3, Passing(1, true, true), w4);
    assert Targets(w4.p, All) == {1};
    Deletes(w4, All, {1}, false);
    assert {1} + {1} - {1} == {};
    Reaches(sz, w4, Deleting(All, [], false), w5);
    assert {} + {1} == {1};
    Reaches(sz, w5, Putting(1), w6);
    w := Plain(sz, {0}, {}, 1, PlainMedia(sz, {0}, {}, 1), Idle, {1});
    assert {0, 1} - {1} == {0};
    Reaches(sz, w6, Clearing(true), w);
    Creates(w, 1);
  }

  /** A pool created while a delete-all pass is pending loses its pairs to that pass. */
  lemma NewPoolLosesKeysToPass(sz: Sizes) returns (w: World)
    requires sz.maxPools >= 3
    ensures Reachable(sz, w) && Legal(w, Passing(2, true, true))
    ensures 2 in w.keys && 2 in Live(w.p) && 2 !in Next(w, Passing(2, true, true)).keys
            && 2 in Live(Next(w, Passing(2, true, true)).p)
  {
    var w3 := Plain(sz, {0, 1}, {1}, 2, PlainMedia(sz, {0, 1}, {1}, 2), PassAll({1}), {});
    var w4 := Plain(sz, {0, 1, 2}, {1}, 3, PlainMedia(sz, {0, 1, 2}, {1}, 3), PassAll({1}), {});
    SnapshotsAll(sz);
    Creates(w3, 2);
    assert {0, 1} + {2} == {0, 1, 2};
    Reaches(sz, w3, Untagged(true), w4);
    w := w4.(keys := {2});
    assert {} + {2} == {2};
    Reaches(sz, w4, Putting(2), w);
  }

  /** Two pools, one of them marked. */
  lemma OneOfTwoMarked(sz: Sizes)
    requires sz.maxPools >= 3
    ensures Reachable(sz, Plain(sz, {0, 1, 2}, {1}, 3, PlainMedia(sz, {0, 1, 2}, {1}, 3), Idle, {}))
  {
    var w1 := Plain(sz, {0, 1}, {1}, 2, PlainMedia(sz, {0, 1}, {1}, 2), Idle, {});
    OneMarkedPool(sz, One(1));
    Creates(w1, 2);
    assert {0, 1} + {2} == {0, 1, 2};
    Reaches(sz, w1, Untagged(true), Plain(sz, {0, 1, 2}, {1}, 3, PlainMedia(sz, {0, 1, 2}, {1}, 3), Idle, {}));
  }

  /** Three pools, two of them marked. */
  lemma TwoOfThreeMarked(sz: Sizes)
    requires sz.maxPools >= 4
    ensures Reachable(sz, Plain(sz, {0, 1, 2, 3}, {1, 2}, 4, PlainMedia(sz, {0, 1, 2, 3}, {1, 2}, 4), Idle, {}))
  {
    var w2 := Plain(sz, {0, 1, 2}, {1}, 3, PlainMedia(sz, {0, 1, 2}, {1}, 3), Idle, {});
    var w3 := Plain(sz, {0, 1, 2, 3}, {1}, 4, PlainMedia(sz, {0, 1, 2, 3}, {1}, 4), Idle, {});
    OneOfTwoMarked(sz);
    Creates(w2, 3);
    assert {0, 1, 2} + {3} == {0, 1, 2, 3};
    Reaches(sz, w2, Untagged(true), w3);
    assert Targets(w3.p, One(2)) == {2};
    Deletes(w3, One(2), {2}, true);
    assert {1} + {2} == {1, 2};
    Reaches(sz, w3, Deleting(One(2), [], true),
            Plain(sz, {0, 1, 2, 3}, {1, 2}, 4, PlainMedia(sz, {0, 1, 2, 3}, {1, 2}, 4), Idle, {}));
  }

  /** The thread clears the first of them. */
  lemma FirstOfTwoCleared(sz: Sizes)
    requires sz.maxPools >= 4
    ensures Reachable(sz, Plain(sz, {0, 2, 3}, {2}, 3, PlainMedia(sz, {0, 2, 3}, {2}, 3), PassEach({2}), {}))
  {
    var all := {0, 1, 2, 3};
    var w0 := Plain(sz, all, {1, 2}, 4, PlainMedia(sz, all, {1, 2}, 4), Idle, {});
    var w1 := w0.(thread := PassEach({1, 2}));
    var w2 := w0.(thread := ClearEach(1, {2}));
    TwoOfThreeMarked(sz);
    assert 3 in all - {0} && 3 !in {1, 2};
    Reaches(sz, w0, Snapshotting, w1);
    assert {1, 2} - {1} == {2};
    Reaches(sz, w1, Passing(1, true, true), w2);
    SmallIds(sz, all, {0, 2, 3}, 1);
    SmallIds(sz, {1, 2}, {2}, 1);
    assert all - {1} == {0, 2, 3};
    Reaches(sz, w2, Clearing(true), Plain(sz, {0, 2, 3}, {2}, 3, PlainMedia(sz, {0, 2, 3}, {2}, 3), PassEach({2}), {}));
  }

  /** The clear of the second cannot be persisted. */
  lemma SecondClearFails(sz: Sizes)
    requires sz.maxPools >= 4
    ensures Reachable(sz, Plain(sz, {0, 3}, {}, 2, PlainMedia(sz, {0, 2, 3}, {2}, 3), Idle, {}))
  {
    var w2 := Plain(sz, {0, 2, 3}, {2}, 3, PlainMedia(sz, {0, 2, 3}, {2}, 3), PassEach({2}), {});
    var w3 := w2.(thread := ClearEach(2, {}));
    FirstOfTwoCleared(sz);
    assert {2} - {2} == {};
    Reaches(sz, w2, Passing(2, true, true), w3);
    assert {0, 2, 3} - {2} == {0, 3};
    Reaches(sz, w3, Clearing(false), Plain(sz, {0, 3}, {}, 2, PlainMedia(sz, {0, 2, 3}, {2}, 3), Idle, {}));
  }

  /** The thread is at work on the marked one of two. */
  lemma OneOfTwoPassed(sz: Sizes)
    requires sz.maxPools >= 3
    ensures Reachable(sz, Plain(sz, {0, 1, 2}, {1}, 3, PlainMedia(sz, {0, 1, 2}, {1}, 3), PassEach({1}), {}))
  {
    var w := Plain(sz, {0, 1, 2}, {1}, 3, PlainMedia(sz, {0, 1, 2}, {1}, 3), Idle, {});
    OneOfTwoMarked(sz);
    assert 2 in {0, 1, 2} - {0} && 2 !in {1};
    Reaches(sz, w, Snapshotting, w.(thread := PassEach({1})));
  }

  /** Its clear cannot be persisted. */
  lemma FirstClearFails(sz: Sizes)
    requires sz.maxPools >= 3
    ensures Reachable(sz, Plain(sz, {0, 2}, {}, 2, PlainMedia(sz, {0, 1, 2}, {1}, 3), Idle, {}))
  {
    var m := PlainMedia(sz, {0, 1, 2}, {1}, 3);
    var w2 := Plain(sz, {0, 1, 2}, {1}, 3, m, PassEach({1}), {});
    OneOfTwoPassed(sz);
    assert {1} - {1} == {};
    Reaches(sz, w2, Passing(1, true, true), w2.(thread := ClearEach(1, {})));
    assert {0, 1, 2} - {1} == {0, 2};
    Reaches(sz, w2.(thread := ClearEach(1, {})), Clearing(false), Plain(sz, {0, 2}, {}, 2, m, Idle, {}));
  }

  /** After a failed clear the id is handed out again, and a restart finds its new pool marked:
      a live pool is in deletion. */
  lemma ReusedPoolIsDeletedAgain(sz: Sizes, spill: Spill) returns (w: World)
    requires sz.maxPools >= 3
    ensures Reachable(sz, w) && 1 in Live(w.p) && Legal(w, Restarting(spill))
    ensures StatusOf(Next(w, Restarting(spill)).p, 1) == DeletionInProgress
  {
    var w0 := Plain(sz, {0, 2}, {}, 2, PlainMedia(sz, {0, 1, 2}, {1}, 3), Idle, {});
    FirstClearFails(sz);
    Creates(w0, 1);
    assert {0, 2} + {1} == {0, 1, 2};
    w := Plain(sz, {0, 1, 2}, {}, 3, PlainMedia(sz, {0, 1, 2}, {1}, 3), Idle, {});
    Reaches(sz, w0, Untagged(true), w);
  }

  /** A clear whose write fails leaves its pool marked on media; a later create in the same
      sector takes the in-use bit from under it, and the next restart refuses the store. */
  lemma FailedClearBreaksRestart(sz: Sizes) returns (w: World)
    requires sz.maxPools >= 4
    ensures Reachable(sz, w) && !Consistent(w.m)
  {
    var w4 := Plain(sz, {0, 3}, {}, 2, PlainMedia(sz, {0, 2, 3}, {2}, 3), Idle, {});
    SecondClearFails(sz);
    Creates(w4, 1);
    w := Plain(sz, {0, 1, 3}, {}, 3, PlainMedia(sz, {0, 1, 3}, {2}, 3), Idle, {});
    assert {0, 3} + {1} == {0, 1, 3};
    Reaches(sz, w4, Untagged(true), w);
    assert 2 in w.m.deleted - {0} && 2 !in w.m.inUse;
  }
}
