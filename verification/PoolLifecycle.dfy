/** Pools over whole runs: calls that create and delete them, puts, and the deletion thread
    (src/kv_pool_manager.cpp, src/kv_pool_del_manager.cpp), each an atomic step, with every
    write allowed to fail; restarts among them. */
module PoolLifecycle {
  import opened Bits
  import opened PoolManager

  /** The deletion thread: asleep, about to trim the keys of its targets, or about to clear
      their bits. One by one when some pool stays, all at once when none does. */
  datatype Thread =
    | Idle
    | PassEach(todo: set<nat>)
    | ClearEach(id: nat, todo: set<nat>)
    | PassAll(ids: set<nat>)
    | ClearAllOf(ids: set<nat>)

  /** keys: the pools that have pairs on media. stuck: the bitmap mutex was never released. */
  datatype World = World(sz: Sizes, p: Pools, m: PoolMedia, thread: Thread, keys: set<nat>, stuck: bool)

  /** A pass may trim all its pairs or leave some, and report success or a failure: after a
      failure, real or not, the thread does not clear. A create comes with the bytes after its
      tag in memory, deletes and restarts with those after each entry they read. */
  datatype Event =
    | Creating(tag: Entry, beyond: seq<Byte>, ok: bool)
    | Deleting(which: Which, spill: Spill, ok: bool)
    | Putting(id: nat)
    | Snapshotting
    | Passing(id: nat, trimmed: bool, ok: bool)
    | Clearing(ok: bool)
    | Restarting(spill: Spill)

  /** A store whose media do not pass the consistency check cannot be restarted. */
  predicate Legal(w: World, e: Event) {
    && (!w.stuck || e.Restarting?) && Sized(w.sz, w.p, w.m)
    && match e
       case Creating(_, _, _) => true
       case Deleting(_, _, _) => true
       case Putting(id) => StatusOf(w.p, id) == InUse
       case Snapshotting => w.thread.Idle? && w.p.deleted != {}
       case Passing(id, trimmed, ok) =>
         ((w.thread.PassEach? && id in w.thread.todo) || w.thread.PassAll?) && (ok ==> trimmed)
       case Clearing(_) => w.thread.ClearEach? || w.thread.ClearAllOf?
       case Restarting(_) => Consistent(w.m)
  }

  /** What the event does to the pools and their media. */
  function PoolStep(w: World, e: Event): Step
    requires Legal(w, e)
  {
    match e
    case Creating(tag, beyond, ok) => Create(w.sz, w.p, w.m, tag, NameOf(tag, beyond), ok)
    case Deleting(which, spill, ok) => Delete(w.sz, w.p, w.m, which, spill, ok)
    case Clearing(ok) =>
      if w.thread.ClearEach? then ClearOne(w.sz, w.p, w.m, w.thread.id, ok)
      else ClearAll(w.p, w.m, w.thread.ids, ok)
    case Restarting(spill) => Step(Restored(w.m, spill), w.m, Done)
    case _ => Step(w.p, w.m, Done)
  }

  function ThreadStep(w: World, e: Event): Thread
    requires Legal(w, e)
  {
    match e
    case Snapshotting => if w.p.deleted == w.p.inUse - {0} then PassAll(w.p.deleted) else PassEach(w.p.deleted)
    case Passing(id, _, ok) =>
      if !ok then Idle
      else if w.thread.PassEach? then ClearEach(id, w.thread.todo - {id}) else ClearAllOf(w.thread.ids)
    case Clearing(ok) => if ok && w.thread.ClearEach? && w.thread.todo != {} then PassEach(w.thread.todo) else Idle
    case Restarting(_) => Idle
    case _ => w.thread
  }

  function KeysStep(w: World, e: Event): set<nat>
    requires Legal(w, e)
  {
    match e
    case Putting(id) => w.keys + {id}
    case Passing(id, trimmed, _) =>
      if !trimmed then w.keys else if w.thread.PassEach? then w.keys - {id} else w.keys * {0}
    case _ => w.keys
  }

  function Next(w: World, e: Event): World
    requires Legal(w, e)
  {
    var s := PoolStep(w, e);
    World(w.sz, s.pools, s.media, ThreadStep(w, e), KeysStep(w, e), e.Clearing? && w.thread.ClearAllOf? && !e.ok)
  }

  predicate LegalRun(w: World, es: seq<Event>)
    decreases |es|
  {
    es == [] || (Legal(w, es[0]) && LegalRun(Next(w, es[0]), es[1..]))
  }

  function After(w: World, es: seq<Event>): World
    requires LegalRun(w, es)
    decreases |es|
  {
    if es == [] then w else After(Next(w, es[0]), es[1..])
  }

  // ---- Statements about every step and every state of a run -----------------------------

  ghost predicate Always(w: World, es: seq<Event>, good: World -> bool)
    requires LegalRun(w, es)
    decreases |es|
  {
    good(w) && (es == [] || Always(Next(w, es[0]), es[1..], good))
  }

  ghost predicate Never(w: World, es: seq<Event>, bad: (World, Event) -> bool)
    requires LegalRun(w, es)
    decreases |es|
  {
    es == [] || (!bad(w, es[0]) && Never(Next(w, es[0]), es[1..], bad))
  }

  /** A condition that single steps keep unless they are of one kind holds throughout exactly
      the runs without such a step. The steps may rely on what every step keeps. */
  lemma {:induction false} AlwaysIffNever(w: World, es: seq<Event>, inv: World -> bool, good: World -> bool,
                                          bad: (World, Event) -> bool)
    requires LegalRun(w, es) && inv(w) && good(w)
    requires forall v, e :: inv(v) && Legal(v, e) ==> inv(Next(v, e))
    requires forall v, e :: inv(v) && good(v) && Legal(v, e) ==> (good(Next(v, e)) <==> !bad(v, e))
    ensures Always(w, es, good) <==> Never(w, es, bad)
    ensures Never(w, es, bad) ==> inv(After(w, es)) && good(After(w, es))
    decreases |es|
  {
    if es != [] && good(Next(w, es[0])) {
      AlwaysIffNever(Next(w, es[0]), es[1..], inv, good, bad);
    }
  }

  // ---- What holds whatever fails ---------------------------------------------------------

  /** Pools the deletion thread has still to clear. */
  function Pending(t: Thread): set<nat> {
    match t
    case Idle => {}
    case PassEach(todo) => todo
    case ClearEach(id, todo) => todo + {id}
    case PassAll(ids) => ids
    case ClearAllOf(ids) => ids
  }

  /** The default pool is there to stay, only pools in use are being deleted, and the count
      does not exceed the number of bits set. */
  ghost predicate PoolsOk(sz: Sizes, p: Pools) {
    && 0 in p.inUse && 0 !in p.deleted && p.deleted <= p.inUse
    && (forall i :: i in p.inUse ==> i < sz.maxPools) && p.total <= |p.inUse|
  }

  /** Whatever failed, the media have every in-use bit that memory has. */
  ghost predicate MediaOk(sz: Sizes, p: Pools, m: PoolMedia) {
    && p.inUse <= m.inUse && 0 !in m.deleted
    && (forall i :: i in m.inUse ==> i < sz.maxPools) && m.total <= |m.inUse|
  }

  ghost predicate WorldOk(w: World) {
    && Sized(w.sz, w.p, w.m) && PoolsOk(w.sz, w.p) && MediaOk(w.sz, w.p, w.m)
    && Pending(w.thread) <= w.p.inUse && 0 !in Pending(w.thread)
    && (w.thread.Idle? || Pending(w.thread) != {})
    && (w.thread.ClearEach? ==> w.thread.id !in w.thread.todo)
  }

  lemma CardinalityPlus(s: set<nat>, x: nat)
    requires x !in s
    ensures |s + {x}| == |s| + 1
  {
  }

  lemma CardinalityMinus(s: set<nat>, t: set<nat>)
    requires t <= s
    ensures |s - t| == |s| - |t|
  {
    assert s == (s - t) + t;
    assert (s - t) * t == {};
  }

  lemma CardinalityWithin(s: set<nat>, t: set<nat>)
    requires s <= t
    ensures |s| <= |t|
  {
    CardinalityMinus(t, s);
  }

  /** create_pool gets as far as taking a new id. */
  predicate HandsOut(w: World, name: Name) {
    !(name != [] && name in w.p.byTag) && w.p.total <= w.sz.maxPools
    && LeastFree(w.p.inUse, 0, w.sz.maxPools) < w.sz.maxPools
  }

  lemma CreateKeepsPools(w: World, tag: Entry, name: Name, ok: bool)
    requires WorldOk(w)
    ensures var s := Create(w.sz, w.p, w.m, tag, name, ok);
            Sized(w.sz, s.pools, s.media) && PoolsOk(w.sz, s.pools) && MediaOk(w.sz, s.pools, s.media)
            && w.p.inUse <= s.pools.inUse
  {
    var s := Create(w.sz, w.p, w.m, tag, name, ok);
    var id := LeastFree(w.p.inUse, 0, w.sz.maxPools);
    if HandsOut(w, name) {
      CardinalityPlus(w.p.inUse, id);
      assert w.p.inUse + {id} - {id} == w.p.inUse;
      if ok {
        CardinalityWithin(w.p.inUse + {id}, s.media.inUse);
      }
    }
  }

  lemma ClearKeepsPools(w: World, ok: bool)
    requires WorldOk(w) && Legal(w, Clearing(ok))
    ensures var s := PoolStep(w, Clearing(ok)); PoolsOk(w.sz, s.pools) && MediaOk(w.sz, s.pools, s.media)
  {
    var s := PoolStep(w, Clearing(ok));
    var ids := if w.thread.ClearEach? then {w.thread.id} else w.thread.ids;
    CardinalityMinus(w.p.inUse, ids);
    if ok {
      CardinalityWithin(s.pools.inUse, s.media.inUse);
    }
  }

  /** Every step, its write failing or not, keeps the pools consistent. */
  lemma StepKeepsPools(w: World, e: Event)
    requires WorldOk(w) && Legal(w, e)
    ensures WorldOk(Next(w, e))
  {
    match e {
      case Creating(tag, beyond, ok) => CreateKeepsPools(w, tag, NameOf(tag, beyond), ok);
      case Clearing(ok) => ClearKeepsPools(w, ok);
      case _ =>
    }
  }

  lemma PoolsStayOk()
    ensures forall v, e :: WorldOk(v) && Legal(v, e) ==> WorldOk(Next(v, e))
  {
    forall v, e | WorldOk(v) && Legal(v, e) ensures WorldOk(Next(v, e)) {
      StepKeepsPools(v, e);
    }
  }

  lemma {:induction false} RunKeepsPools(w: World, es: seq<Event>)
    requires WorldOk(w) && LegalRun(w, es)
    ensures WorldOk(After(w, es))
    decreases |es|
  {
    if es != [] {
      StepKeepsPools(w, es[0]);
      RunKeepsPools(Next(w, es[0]), es[1..]);
    }
  }

  /** The count is the number of pools in use. */
  predicate Counted(w: World) {
    w.p.total == |w.p.inUse|
  }

  /** A restart whose media have the bit of a pool that the count has lost. */
  predicate Miscounts(w: World, e: Event) {
    e.Restarting? && w.m.total != |w.m.inUse|
  }

  lemma StepCountsIff(w: World, e: Event)
    requires WorldOk(w) && Counted(w) && Legal(w, e)
    ensures Counted(Next(w, e)) <==> !Miscounts(w, e)
  {
    match e {
      case Creating(tag, beyond, ok) =>
        var id := LeastFree(w.p.inUse, 0, w.sz.maxPools);
        if HandsOut(w, NameOf(tag, beyond)) {
          CardinalityPlus(w.p.inUse, id);
          assert w.p.inUse + {id} - {id} == w.p.inUse;
        }
      case Clearing(ok) =>
        CardinalityMinus(w.p.inUse, if w.thread.ClearEach? then {w.thread.id} else w.thread.ids);
      case _ =>
    }
  }

  function Blank(n: nat): seq<Entry> {
    seq(n, _ => NO_TAG)
  }

  /** A newly created store. */
  function Formatted(sz: Sizes): World
  {
    World(sz, Pools({0}, {}, 1, Blank(sz.maxPools), map[]), PoolMedia({0}, {}, 1, Blank(sz.maxPools)), Idle, {}, false)
  }

  lemma FormattedOk(sz: Sizes)
    requires sz.maxPools > 0
    ensures WorldOk(Formatted(sz))
  {
  }

  /** The count is the number of pools in every state of a run exactly when no restart of the
      run finds media whose count has fallen behind their bits. */
  lemma CountIsExactIff(sz: Sizes, es: seq<Event>)
    requires sz.maxPools > 0 && LegalRun(Formatted(sz), es)
    ensures Always(Formatted(sz), es, Counted) <==> Never(Formatted(sz), es, Miscounts)
  {
    FormattedOk(sz);
    PoolsStayOk();
    forall v, e | WorldOk(v) && Counted(v) && Legal(v, e) ensures Counted(Next(v, e)) <==> !Miscounts(v, e) {
      StepCountsIff(v, e);
    }
    AlwaysIffNever(Formatted(sz), es, WorldOk, Counted, Miscounts);
  }

  // ---- The life of one pool --------------------------------------------------------------

  /** The moves of a pool's status: created, marked, cleared. Besides them, a pool marked
      before is unmarked by a delete-all whose write fails, and only by that; a pool the thread
      is about to clear goes even if it was so unmarked; and a restart takes what the media have. */
  lemma StatusMoves(w: World, e: Event, id: nat)
    requires WorldOk(w) && Legal(w, e)
    ensures var from, to := StatusOf(w.p, id), StatusOf(Next(w, e).p, id);
            || from == to
            || (from == NotInUse && to == InUse && e.Creating? && e.ok && PoolStep(w, e).outcome == PoolId(id))
            || (from == InUse && to == DeletionInProgress && e.Deleting? && e.ok && id in Targets(w.p, e.which))
            || (to == NotInUse && e.Clearing? && id in Pending(w.thread))
            || (from == DeletionInProgress && to == InUse && Unmarks(e))
            || (e.Restarting? && to == StatusOnMedia(w.m, id))
  {
  }

  /** A delete-all that cannot be persisted: it reverts marks, its own and older ones. */
  predicate Unmarks(e: Event) {
    e.Deleting? && e.which.All? && !e.ok
  }

  /** The bitmaps and the count on media are those in memory. */
  predicate Synced(w: World) {
    w.m.inUse == w.p.inUse && w.m.deleted == w.p.deleted && w.m.total == w.p.total
  }

  /** No delete-all fails to be persisted while pools are marked, and restarts find on media
      what was in memory. */
  predicate Orderly(w: World, e: Event) {
    (Unmarks(e) ==> w.p.deleted == {}) && (e.Restarting? ==> Synced(w))
  }

  predicate OrderlyRun(w: World, es: seq<Event>)
    requires LegalRun(w, es)
    decreases |es|
  {
    es == [] || (Orderly(w, es[0]) && OrderlyRun(Next(w, es[0]), es[1..]))
  }

  /** What the thread has taken on stays marked. */
  ghost predicate MarksHeld(w: World) {
    WorldOk(w) && Pending(w.thread) <= w.p.deleted
  }

  lemma {:induction false} RunHoldsMarks(w: World, es: seq<Event>)
    requires MarksHeld(w) && LegalRun(w, es) && OrderlyRun(w, es)
    ensures MarksHeld(After(w, es))
    decreases |es|
  {
    if es != [] {
      StepKeepsPools(w, es[0]);
      RunHoldsMarks(Next(w, es[0]), es[1..]);
    }
  }

  /** In an orderly run from a new store a status only ever cycles: not in use, in use, being
      deleted, not in use. */
  lemma StatusCycles(sz: Sizes, es: seq<Event>, e: Event, id: nat)
    requires sz.maxPools > 0 && LegalRun(Formatted(sz), es) && OrderlyRun(Formatted(sz), es)
    requires Legal(After(Formatted(sz), es), e) && Orderly(After(Formatted(sz), es), e)
    ensures var w := After(Formatted(sz), es);
            var from, to := StatusOf(w.p, id), StatusOf(Next(w, e).p, id);
            from == to || (from == NotInUse && to == InUse) || (from == InUse && to == DeletionInProgress)
            || (from == DeletionInProgress && to == NotInUse)
  {
    FormattedOk(sz);
    RunHoldsMarks(Formatted(sz), es);
    StatusMoves(After(Formatted(sz), es), e, id);
  }

  // ---- Pairs of pools that are gone -------------------------------------------------------

  /** Pools whose pairs the thread has trimmed and whose bits it has not cleared yet. */
  function Trimmed(t: Thread): set<nat> {
    match t
    case ClearEach(id, _) => {id}
    case ClearAllOf(ids) => ids
    case _ => {}
  }

  /** Only pools in use have pairs, and a pool whose pairs were trimmed has none. */
  ghost predicate KeysClean(w: World) {
    w.keys <= w.p.inUse && Trimmed(w.thread) * w.keys == {}
  }

  /** A put into a pool between its trimming and its clearing. */
  predicate LatePut(w: World, e: Event) {
    e.Putting? && e.id in Trimmed(w.thread)
  }

  /** Pools go only when the thread clears them. */
  lemma InUseStays(w: World, e: Event)
    requires WorldOk(w) && Legal(w, e)
    ensures w.p.inUse - (if e.Clearing? then Trimmed(w.thread) else {}) <= Next(w, e).p.inUse
  {
    if e.Creating? {
      CreateKeepsPools(w, e.tag, NameOf(e.tag, e.beyond), e.ok);
    }
  }

  lemma StepCleanIff(w: World, e: Event)
    requires WorldOk(w) && KeysClean(w) && Legal(w, e)
    ensures KeysClean(Next(w, e)) <==> !LatePut(w, e)
  {
    InUseStays(w, e);
    match e {
      case Clearing(ok) =>
        assert forall x :: x in w.keys ==> x !in Trimmed(w.thread) * w.keys;
      case Putting(id) =>
        if LatePut(w, e) {
          assert id in Trimmed(w.thread) * Next(w, e).keys;
        }
      case _ =>
    }
  }

  /** Only pools in use ever have pairs, in every state of a run, exactly when the run has no
      late put. */
  lemma CleanIffNoLatePut(sz: Sizes, es: seq<Event>)
    requires sz.maxPools > 0 && LegalRun(Formatted(sz), es)
    ensures Always(Formatted(sz), es, KeysClean) <==> Never(Formatted(sz), es, LatePut)
    ensures Never(Formatted(sz), es, LatePut) ==>
              WorldOk(After(Formatted(sz), es)) && KeysClean(After(Formatted(sz), es))
  {
    FormattedOk(sz);
    forall v, e | WorldOk(v) && KeysClean(v) && Legal(v, e)
      ensures KeysClean(Next(v, e)) <==> !LatePut(v, e)
    {
      StepCleanIff(v, e);
    }
    PoolsStayOk();
    AlwaysIffNever(Formatted(sz), es, WorldOk, KeysClean, LatePut);
  }

  /** A pool that create_pool newly hands out after a run without late puts has no pairs on media. */
  lemma NewPoolIsEmpty(sz: Sizes, es: seq<Event>, tag: Entry, beyond: seq<Byte>)
    requires sz.maxPools > 0 && LegalRun(Formatted(sz), es) && Never(Formatted(sz), es, LatePut)
    requires Legal(After(Formatted(sz), es), Creating(tag, beyond, true))
    ensures var w := After(Formatted(sz), es);
            var s := PoolStep(w, Creating(tag, beyond, true));
            s.outcome.PoolId? && s.outcome.id !in w.p.inUse ==> s.outcome.id !in w.keys
  {
    CleanIffNoLatePut(sz, es);
  }

  /** The other way round: after a late put, the thread's clear takes the pool and leaves its
      pairs behind. */
  lemma LatePutLeaks(w: World, e: Event, ok: bool)
    requires WorldOk(w) && Legal(w, e) && LatePut(w, e)
    ensures Legal(Next(w, e), Clearing(ok))
            && var w' := Next(Next(w, e), Clearing(ok)); e.id in w'.keys && e.id !in w'.p.inUse
  {
  }

  /** An orderly run has no late put. */
  lemma {:induction false} OrderlyHasNoLatePut(w: World, es: seq<Event>)
    requires MarksHeld(w) && LegalRun(w, es) && OrderlyRun(w, es)
    ensures Never(w, es, LatePut)
    decreases |es|
  {
    if es != [] {
      assert Trimmed(w.thread) <= Pending(w.thread);
      StepKeepsPools(w, es[0]);
      OrderlyHasNoLatePut(Next(w, es[0]), es[1..]);
    }
  }

  // ---- Pairs of pools that stay -------------------------------------------------------------

  /** A step takes the pairs of a pool that is in use and not marked. */
  ghost predicate LosesLivePairs(w: World, e: Event) {
    Legal(w, e) && !(w.keys * Live(w.p) <= Next(w, e).keys)
  }

  /** A trimming pass that meets pairs of live pools: of its one pool, or of any but the default. */
  predicate PassMeetsLive(w: World, e: Event) {
    e.Passing? && e.trimmed
    && if w.thread.PassEach? then e.id in w.keys * Live(w.p) else !(w.keys * Live(w.p) <= {0})
  }

  lemma StepLosesIff(w: World, e: Event)
    requires Legal(w, e)
    ensures LosesLivePairs(w, e) <==> PassMeetsLive(w, e)
  {
    if e.Passing? && e.trimmed {
      var had := w.keys * Live(w.p);
      if w.thread.PassEach? {
        assert had <= w.keys - {e.id} <==> e.id !in had;
      } else if had <= {0} {
        assert had <= w.keys * {0};
      } else {
        var x :| x in had && x !in {0};
        assert x !in w.keys * {0};
      }
    }
  }

  /** A run keeps the pairs of every live pool through each step exactly when no pass of it
      meets such pairs. */
  lemma {:induction false} LivePairsStayIff(w: World, es: seq<Event>)
    requires LegalRun(w, es)
    ensures Never(w, es, LosesLivePairs) <==> Never(w, es, PassMeetsLive)
    decreases |es|
  {
    if es != [] {
      StepLosesIff(w, es[0]);
      LivePairsStayIff(Next(w, es[0]), es[1..]);
    }
  }

  /** While the thread is to trim every pool, a put into another pool than the default. */
  predicate PutUnderPassAll(w: World, e: Event) {
    e.Putting? && w.thread.PassAll? && e.id != 0
  }

  ghost predicate PassSpares(w: World) {
    MarksHeld(w) && KeysClean(w) && (w.thread.PassAll? ==> w.keys * Live(w.p) <= {0})
  }

  lemma {:induction false} PassesSpareLive(w: World, es: seq<Event>)
    requires PassSpares(w) && LegalRun(w, es) && OrderlyRun(w, es) && Never(w, es, PutUnderPassAll)
    ensures Never(w, es, LosesLivePairs)
    decreases |es|
  {
    if es != [] {
      assert Trimmed(w.thread) <= Pending(w.thread);
      StepLosesIff(w, es[0]);
      StepKeepsPools(w, es[0]);
      StepCleanIff(w, es[0]);
      StepSpares(w, es[0]);
      PassesSpareLive(Next(w, es[0]), es[1..]);
    }
  }

  lemma StepSpares(w: World, e: Event)
    requires PassSpares(w) && Legal(w, e) && Orderly(w, e) && !PutUnderPassAll(w, e)
    requires WorldOk(Next(w, e)) && KeysClean(Next(w, e))
    ensures PassSpares(Next(w, e))
  {
    match e {
      case Creating(tag, beyond, ok) => CreateKeepsPools(w, tag, NameOf(tag, beyond), ok);
      case _ =>
    }
  }

  /** In an orderly run no live pool loses pairs unless one other than the default was put into
      while the thread was about to trim every pool. */
  lemma LivePairsStay(sz: Sizes, es: seq<Event>)
    requires sz.maxPools > 0 && LegalRun(Formatted(sz), es) && OrderlyRun(Formatted(sz), es)
    requires Never(Formatted(sz), es, PutUnderPassAll)
    ensures Never(Formatted(sz), es, LosesLivePairs)
  {
    FormattedOk(sz);
    PassesSpareLive(Formatted(sz), es);
  }

  /** Conversely such a put is lost to the very next pass that trims. */
  lemma PutUnderPassAllIsLost(w: World, e: Event, id: nat, ok: bool)
    requires WorldOk(w) && Legal(w, e) && PutUnderPassAll(w, e)
    ensures Legal(Next(w, e), Passing(id, true, ok)) && LosesLivePairs(Next(w, e), Passing(id, true, ok))
  {
    assert e.id in Next(w, e).keys * Live(Next(w, e).p);
    StepLosesIff(Next(w, e), Passing(id, true, ok));
  }

  /** The snapshot says that every pool goes exactly when only the default will be left. */
  lemma SnapshotTakesAllIff(w: World)
    requires WorldOk(w) && Legal(w, Snapshotting)
    ensures Next(w, Snapshotting).thread.PassAll? <==> Live(w.p) == {0}
    ensures Pending(Next(w, Snapshotting).thread) == w.p.deleted
  {
    if Live(w.p) == {0} {
      assert forall x :: x in w.p.inUse - {0} ==> x !in Live(w.p);
    } else {
      assert 0 in Live(w.p);
      var x :| x in Live(w.p) && x != 0;
    }
  }

  // ---- Restart -----------------------------------------------------------------------------

  /** Writing one sector suffices when only the bit of one id has changed. */
  lemma OneSectorSuffices(sz: Sizes, onMedia: set<nat>, inMemory: set<nat>, id: nat)
    requires onMedia - {id} == inMemory - {id}
    ensures PersistBits(sz, onMedia, inMemory, id) == inMemory
  {
    assert forall x :: x != id ==> (x in onMedia <==> x in onMedia - {id}) && (x in inMemory <==> x in inMemory - {id});
  }

  lemma ClearSyncs(w: World, ok: bool)
    requires WorldOk(w) && Legal(w, Clearing(ok)) && Synced(w)
    ensures Synced(Next(w, Clearing(ok))) <==> ok
  {
    var p' := Next(w, Clearing(ok)).p;
    if w.thread.ClearEach? {
      OneSectorSuffices(w.sz, w.m.inUse, p'.inUse, w.thread.id);
      OneSectorSuffices(w.sz, w.m.deleted, p'.deleted, w.thread.id);
      assert w.thread.id in Pending(w.thread) && w.thread.id !in p'.inUse;
    } else {
      var x :| x in w.thread.ids;
      assert x in w.p.inUse && x !in p'.inUse;
    }
  }

  lemma DeleteSyncs(w: World, which: Which, spill: Spill, ok: bool)
    requires WorldOk(w) && Legal(w, Deleting(which, spill, ok)) && Synced(w)
    ensures Synced(Next(w, Deleting(which, spill, ok))) <==> Orderly(w, Deleting(which, spill, ok))
  {
    var s := Delete(w.sz, w.p, w.m, which, spill, ok);
    if which.One? {
      if which.id != 0 && which.id in w.p.inUse && which.id !in w.p.deleted {
        assert Targets(w.p, which) == {which.id};
        OneSectorSuffices(w.sz, w.m.deleted, w.p.deleted + {which.id}, which.id);
      }
    } else if !ok {
      assert s.pools.deleted == {};
    }
  }

  lemma CreateSyncs(w: World, e: Event)
    requires e.Creating? && WorldOk(w) && Legal(w, e) && Synced(w)
    ensures Synced(Next(w, e))
  {
    var s, ok := PoolStep(w, e), e.ok;
    var id := LeastFree(w.p.inUse, 0, w.sz.maxPools);
    if s.pools != w.p {
      if ok {
        OneSectorSuffices(w.sz, w.m.inUse, w.p.inUse + {id}, id);
      } else {
        assert s.pools.inUse == w.p.inUse;
      }
    }
  }

  /** The media bitmaps keep equal to memory across a step exactly when it is not a clear whose
      write fails, nor a failing delete-all over marked pools. */
  lemma StepSyncsIff(w: World, e: Event)
    requires WorldOk(w) && Legal(w, e) && Synced(w)
    ensures Synced(Next(w, e)) <==> Orderly(w, e) && e != Clearing(false)
  {
    match e {
      case Creating(_, _, _) => CreateSyncs(w, e);
      case Deleting(which, spill, ok) => DeleteSyncs(w, which, spill, ok);
      case Clearing(ok) => ClearSyncs(w, ok);
      case _ =>
    }
  }

  /** A clear whose write fails, or a failing delete-all over marked pools. */
  predicate Unsyncs(w: World, e: Event) {
    e == Clearing(false) || !Orderly(w, e)
  }

  /** Restarts at every point of a run find the bitmaps and the count as they were in memory
      exactly when the run has no such step; creates and deletes of one pool may fail. Then the
      consistency check passes too. */
  lemma RestartIsConsistent(sz: Sizes, es: seq<Event>, spill: Spill)
    requires sz.maxPools > 0 && LegalRun(Formatted(sz), es)
    ensures Always(Formatted(sz), es, Synced) <==> Never(Formatted(sz), es, Unsyncs)
    ensures Never(Formatted(sz), es, Unsyncs) ==>
              var w := After(Formatted(sz), es);
              Consistent(w.m) && Restored(w.m, spill).inUse == w.p.inUse && Restored(w.m, spill).deleted == w.p.deleted
              && Restored(w.m, spill).total == w.p.total
  {
    FormattedOk(sz);
    PoolsStayOk();
    forall v, e | WorldOk(v) && Synced(v) && Legal(v, e)
      ensures Synced(Next(v, e)) <==> !Unsyncs(v, e)
    {
      StepSyncsIff(v, e);
    }
    AlwaysIffNever(Formatted(sz), es, WorldOk, Synced, Unsyncs);
  }

  /** A restart in this state passes the consistency check. */
  ghost predicate Restarts(w: World) {
    Consistent(w.m)
  }

  /** A create whose new pool's bit is written back with a sector that no longer has the bit of
      a pool which the media still have as marked. */
  ghost predicate DropsMarked(w: World, e: Event) {
    && Legal(w, e) && e.Creating? && e.ok
    && var id := LeastFree(w.p.inUse, 0, w.sz.maxPools);
       HandsOut(w, NameOf(e.tag, e.beyond))
       && exists x :: x in w.m.deleted && x != 0 && BitSector(w.sz, x) == BitSector(w.sz, id)
                                         && x !in w.p.inUse && x != id
  }

  lemma CreateRestartsIff(w: World, e: Event)
    requires e.Creating? && WorldOk(w) && Restarts(w) && Legal(w, e)
    ensures Restarts(Next(w, e)) <==> !DropsMarked(w, e)
  {
    var m := PoolStep(w, e).media;
    var id := LeastFree(w.p.inUse, 0, w.sz.maxPools);
    if HandsOut(w, NameOf(e.tag, e.beyond)) && e.ok {
      assert m.inUse == PersistBits(w.sz, w.m.inUse, w.p.inUse + {id}, id);
      if DropsMarked(w, e) {
        var x :| x in w.m.deleted && x != 0 && BitSector(w.sz, x) == BitSector(w.sz, id) && x !in w.p.inUse && x != id;
        assert x in m.deleted - {0} && x !in m.inUse;
      }
    }
  }

  lemma StepRestartsIff(w: World, e: Event)
    requires WorldOk(w) && Restarts(w) && Legal(w, e)
    ensures Restarts(Next(w, e)) <==> !DropsMarked(w, e)
  {
    match e {
      case Creating(_, _, _) => CreateRestartsIff(w, e);
      case Clearing(ok) => ClearKeepsPools(w, ok);
      case _ =>
    }
  }

  /** A restart at any point of a run passes the consistency check exactly when no create of
      the run drops the bit of a pool marked on media. */
  lemma RestartsConsistentIff(sz: Sizes, es: seq<Event>)
    requires sz.maxPools > 0 && LegalRun(Formatted(sz), es)
    ensures Always(Formatted(sz), es, Restarts) <==> Never(Formatted(sz), es, DropsMarked)
    ensures Never(Formatted(sz), es, DropsMarked) ==> Consistent(After(Formatted(sz), es).m)
  {
    FormattedOk(sz);
    PoolsStayOk();
    forall v, e | WorldOk(v) && Restarts(v) && Legal(v, e)
      ensures Restarts(Next(v, e)) <==> !DropsMarked(v, e)
    {
      StepRestartsIff(v, e);
    }
    AlwaysIffNever(Formatted(sz), es, WorldOk, Restarts, DropsMarked);
  }

  /** Such media come of a clear that fails and a create whose bit lies in another sector. */
  lemma CountFallsBehind(w: World, e: Event, spill: Spill)
    requires WorldOk(w) && Synced(w) && Counted(w) && w.thread.ClearEach? && Legal(w, Clearing(false))
    requires e.Creating? && e.ok && HandsOut(Next(w, Clearing(false)), NameOf(e.tag, e.beyond))
    requires BitSector(w.sz, LeastFree(w.p.inUse - {w.thread.id}, 0, w.sz.maxPools)) != BitSector(w.sz, w.thread.id)
    ensures Legal(Next(w, Clearing(false)), e)
    ensures Miscounts(Next(Next(w, Clearing(false)), e), Restarting(spill))
  {
    var k, w1 := w.thread.id, Next(w, Clearing(false));
    var id, w2 := LeastFree(w.p.inUse - {k}, 0, w.sz.maxPools), Next(w1, e);
    CardinalityMinus(w.p.inUse, {k});
    assert w2.m.inUse == w.p.inUse + {id};
    assert id !in w.p.inUse;
    CardinalityPlus(w.p.inUse, id);
  }

  // ---- Live pools over a restart -----------------------------------------------------------

  /** No live pool is marked on media. */
  ghost predicate LiveUnmarked(w: World) {
    Live(w.p) * w.m.deleted == {}
  }

  /** A restart leaves every live pool live exactly when none is marked on media. */
  lemma RestartKeepsLiveIff(w: World, spill: Spill)
    requires WorldOk(w) && Legal(w, Restarting(spill))
    ensures Live(w.p) <= Live(Next(w, Restarting(spill)).p) <==> LiveUnmarked(w)
  {
    var live, after := Live(w.p), Live(Next(w, Restarting(spill)).p);
    assert forall x :: x in live && x in w.m.deleted ==> x in live * w.m.deleted;
    if live * w.m.deleted != {} {
      var x :| x in live * w.m.deleted;
      assert x in live && x !in after;
    }
  }

  /** A step that makes a pool live which the media have as marked: a create that hands out such
      an id, left marked by a failed clear, or a failing delete-all over pools marked on media. */
  ghost predicate Revives(w: World, e: Event) {
    || (e.Creating? && e.ok && HandsOut(w, NameOf(e.tag, e.beyond))
        && LeastFree(w.p.inUse, 0, w.sz.maxPools) in w.m.deleted)
    || (Unmarks(e) && w.p.deleted * w.m.deleted != {})
  }

  lemma CreateRevivesIff(w: World, e: Event)
    requires e.Creating? && WorldOk(w) && LiveUnmarked(w) && Legal(w, e)
    ensures LiveUnmarked(Next(w, e)) <==> !Revives(w, e)
  {
    var id := LeastFree(w.p.inUse, 0, w.sz.maxPools);
    if HandsOut(w, NameOf(e.tag, e.beyond)) {
      var p' := Next(w, e).p;
      assert w.p.inUse + {id} - {id} == w.p.inUse;
      assert Live(p') == if e.ok then Live(w.p) + {id} else Live(w.p);
      if e.ok && id in w.m.deleted {
        assert id in Live(p') * w.m.deleted;
      }
    }
  }

  lemma DeleteRevivesIff(w: World, e: Event)
    requires e.Deleting? && WorldOk(w) && LiveUnmarked(w) && Legal(w, e)
    ensures LiveUnmarked(Next(w, e)) <==> !Revives(w, e)
  {
    if Unmarks(e) {
      assert Live(Next(w, e).p) == Live(w.p) + w.p.deleted;
      if w.p.deleted * w.m.deleted != {} {
        var x :| x in w.p.deleted * w.m.deleted;
        assert x in Live(Next(w, e).p) * w.m.deleted;
      }
    }
  }

  lemma StepRevivesIff(w: World, e: Event)
    requires WorldOk(w) && LiveUnmarked(w) && Legal(w, e)
    ensures LiveUnmarked(Next(w, e)) <==> !Revives(w, e)
  {
    match e {
      case Creating(_, _, _) => CreateRevivesIff(w, e);
      case Deleting(_, _, _) => DeleteRevivesIff(w, e);
      case _ =>
    }
  }

  /** A restart at any point of a run would leave the live pools live exactly when the run has
      no such step. */
  lemma LiveSurviveIff(sz: Sizes, es: seq<Event>)
    requires sz.maxPools > 0 && LegalRun(Formatted(sz), es)
    ensures Always(Formatted(sz), es, LiveUnmarked) <==> Never(Formatted(sz), es, Revives)
  {
    FormattedOk(sz);
    PoolsStayOk();
    forall v, e | WorldOk(v) && LiveUnmarked(v) && Legal(v, e)
      ensures LiveUnmarked(Next(v, e)) <==> !Revives(v, e)
    {
      StepRevivesIff(v, e);
    }
    AlwaysIffNever(Formatted(sz), es, WorldOk, LiveUnmarked, Revives);
  }
}
