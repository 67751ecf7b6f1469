/** What the calls of the pool manager answer, over whole runs (src/kv_pool_manager.cpp): which
    pool a create hands out, and when deletes and clears report success. */
module PoolAnswers {
  import opened Bits
  import opened PoolManager
  import opened PoolLifecycle
  import opened PoolTags

  /** No pool is in use under every id. */
  predicate HasRoom(w: World) {
    exists id: nat :: id < w.sz.maxPools && id !in w.p.inUse
  }

  /** Create in a run whose tag map has stayed exact. A name carried by a live pool answers with
      that pool and changes nothing. Any other create takes the least id that is not in use for
      a live pool with the tag given, under which no name was known; it is refused exactly when
      every id is in use, and when its write fails it answers so and takes no id. */
  lemma CreateAnswers(sz: Sizes, es: seq<Event>, tag: Entry, beyond: seq<Byte>, ok: bool)
    requires sz.maxPools > 0 && LegalRun(Formatted(sz), es) && Never(Formatted(sz), es, BreaksTags)
    requires Legal(After(Formatted(sz), es), Creating(tag, beyond, ok))
    ensures var w, e := After(Formatted(sz), es), Creating(tag, beyond, ok);
            var name, answer, w' := NameOf(tag, beyond), PoolStep(w, e).outcome, Next(w, e);
            && (forall i :: name != [] && TagOf(w.p, i, name) ==> i != 0 && answer == PoolId(i) && w' == w)
            && ((forall i :: name != [] ==> !TagOf(w.p, i, name)) ==> Handed(w, w', tag, ok, answer))
  {
    TagsExactIff(sz, es);
    FormattedOk(sz);
    RunKeepsPools(Formatted(sz), es);
    TagsStayExact(sz, es);
    CreateAnswersIn(After(Formatted(sz), es), tag, beyond, ok);
  }

  /** The answer of a create whose name no live pool carries. */
  ghost predicate Handed(w: World, w': World, tag: Entry, ok: bool, answer: Outcome) {
    && (answer == InvalidInput <==> !HasRoom(w)) && (answer == IoError <==> HasRoom(w) && !ok)
    && answer != Done
    && (answer.PoolId? ==>
          && StatusOf(w.p, answer.id) == NotInUse && answer.id < w.sz.maxPools
          && (forall k: nat :: k < answer.id ==> StatusOf(w.p, k) != NotInUse)
          && StatusOf(w'.p, answer.id) == InUse && |w'.p.tags| == |w.p.tags| == w.sz.maxPools
          && w'.p.tags[answer.id] == tag
          && (forall k: nat :: k != answer.id ==> StatusOf(w'.p, k) == StatusOf(w.p, k)
                                                  && (k < w.sz.maxPools ==> w'.p.tags[k] == w.p.tags[k])))
    && (!answer.PoolId? ==> w'.p.inUse == w.p.inUse && w'.p.total == w.p.total && w'.m == w.m)
  }

  lemma TagsStayExact(sz: Sizes, es: seq<Event>)
    requires sz.maxPools > 0 && LegalRun(Formatted(sz), es) && Never(Formatted(sz), es, BreaksTags)
    ensures TagInverse(After(Formatted(sz), es).p)
  {
    TagsExactIff(sz, es);
    InverseWhateverFollows(After(Formatted(sz), es).p);
  }

  lemma CreateAnswersIn(w: World, tag: Entry, beyond: seq<Byte>, ok: bool)
    requires WorldOk(w) && TagInverse(w.p) && Legal(w, Creating(tag, beyond, ok))
    ensures var e := Creating(tag, beyond, ok);
            var name, answer, w' := NameOf(tag, beyond), PoolStep(w, e).outcome, Next(w, e);
            && (forall i :: name != [] && TagOf(w.p, i, name) ==> i != 0 && answer == PoolId(i) && w' == w)
            && ((forall i :: name != [] ==> !TagOf(w.p, i, name)) ==> Handed(w, w', tag, ok, answer))
  {
    var name, w' := NameOf(tag, beyond), Next(w, Creating(tag, beyond, ok));
    AtMostBound(w.p.inUse, w.sz.maxPools);
    if name == [] || forall i :: !TagOf(w.p, i, name) {
      assert name != [] ==> name !in w.p.byTag;
      var id := LeastFree(w.p.inUse, 0, w.sz.maxPools);
      if id < w.sz.maxPools {
        assert HasRoom(w);
        assert !ok ==> w'.p.inUse == w.p.inUse;
      }
    }
  }

  /** What a create that hands out a pool writes: of the tag table the one sector with the new
      tag, so tags that memory has lost stay on the media until a create writes their sector. */
  lemma CreateWritesTagSector(w: World, tag: Entry, beyond: seq<Byte>, i: nat, sector: nat)
    requires WorldOk(w) && Legal(w, Creating(tag, beyond, true)) && w.sz.sectorBits >= 4 && i < w.sz.maxPools
    requires HandsOut(w, NameOf(tag, beyond))
    ensures var e := Creating(tag, beyond, true);
            var answer, w' := PoolStep(w, e).outcome, Next(w, e);
            var start, end := Shl(sector, w.sz.sectorBits), Shl(sector + 1, w.sz.sectorBits);
            answer.PoolId? && |w'.m.tags| == |w.m.tags| == |w'.p.tags|
            && (start <= 16 * answer.id && 16 * answer.id + 16 <= end ==>
                  w'.m.tags[i] == if start <= 16 * i && 16 * i + 16 <= end then w'.p.tags[i] else w.m.tags[i])
  {
    TagInSector(w.sz, i, sector);
    TagInSector(w.sz, PoolStep(w, Creating(tag, beyond, true)).outcome.id, sector);
  }

  /** A step whose write goes to the sector of one pool's bit: a create, a delete or a clear of it. */
  predicate WritesSectorOf(w: World, e: Event, id: nat)
    requires Legal(w, e)
  {
    match e
    case Creating(tag, beyond, ok) => ok && HandsOut(w, NameOf(tag, beyond)) && PoolStep(w, e).outcome == PoolId(id)
    case Deleting(which, _, ok) => ok && which == One(id) && id != 0 && StatusOf(w.p, id) == InUse
    case Clearing(ok) => ok && w.thread.ClearEach? && id == w.thread.id
    case _ => false
  }

  /** Such a step takes to the media what memory says of the pools of that sector and leaves the
      bits of all others there as they were, whatever memory says of them. A create leaves the
      deleted bits alone, a delete the in-use bits. */
  lemma SectorWritten(w: World, e: Event, id: nat, i: nat)
    requires WorldOk(w) && Legal(w, e) && WritesSectorOf(w, e, id)
    ensures var w' := Next(w, e);
            var here := BitSector(w.sz, i) == BitSector(w.sz, id);
            && (i in w'.m.inUse <==> if here && !e.Deleting? then i in w'.p.inUse else i in w.m.inUse)
            && (i in w'.m.deleted <==> if here && !e.Creating? then i in w'.p.deleted else i in w.m.deleted)
  {
  }

  /** A delete or a clear of many pools takes its bitmaps to the media whole. */
  lemma BitmapsWritten(w: World, e: Event)
    requires WorldOk(w) && Legal(w, e)
    requires (e.Deleting? && e.which.All? && e.ok) || (e.Clearing? && e.ok && w.thread.ClearAllOf?)
    ensures Next(w, e).m.deleted == Next(w, e).p.deleted
    ensures Next(w, e).m.inUse == if e.Clearing? then Next(w, e).p.inUse else w.m.inUse
  {
  }

  /** What a delete answers. It is refused for the default pool and for an id that is not in
      use; a pool already being deleted is a success that changes nothing. Otherwise it
      succeeds exactly when its write does, and then the pools asked for, and no others, are
      being deleted in memory and on the media. After a failed write memory has none of them
      marked and no write has changed the media. */
  lemma DeleteAnswers(w: World, which: Which, spill: Spill, ok: bool, i: nat)
    requires WorldOk(w) && Legal(w, Deleting(which, spill, ok))
    ensures var e := Deleting(which, spill, ok);
            var answer, w' := PoolStep(w, e).outcome, Next(w, e);
            var asked := if which.One? then i == which.id else i != 0;
            && (answer == InvalidInput <==> which.One? && (which.id == 0 || StatusOf(w.p, which.id) == NotInUse))
            && (answer == IoError <==> !ok && (which.All? || (which.id != 0 && StatusOf(w.p, which.id) == InUse)))
            && !answer.PoolId?
            && (answer == Done && asked && StatusOf(w.p, i) != NotInUse ==> StatusOf(w'.p, i) == DeletionInProgress)
            && (answer == Done && ok && asked && StatusOf(w.p, i) == InUse ==>
                  StatusOnMedia(w'.m, i) == DeletionInProgress && i < |w'.p.tags| && w'.p.tags[i] == NO_TAG)
            && (!asked ==> StatusOf(w'.p, i) == StatusOf(w.p, i))
            && (answer == InvalidInput ==> w' == w)
            && (answer == IoError ==> w'.m == w.m && (asked && i in w.p.inUse ==> StatusOf(w'.p, i) == InUse))
  {
    if which.One? && which.id in Live(w.p) {
      assert Targets(w.p, which) == {which.id};
    }
  }

  /** The thread goes on to clear exactly after a pass that reported success, and then the pools
      of that pass; after a failure, real or not, they stay marked until another pass. */
  lemma ClearsAfterSuccess(w: World, id: nat, trimmed: bool, ok: bool, written: bool)
    requires WorldOk(w) && Legal(w, Passing(id, trimmed, ok))
    ensures var w' := Next(w, Passing(id, trimmed, ok));
            && (Legal(w', Clearing(written)) <==> ok)
            && (ok ==> Cleared(w') == if w.thread.PassEach? then {id} else Pending(w.thread))
            && (ok ==> Pending(w'.thread) == Pending(w.thread)) && (!ok ==> w'.thread == Idle)
            && w'.p == w.p && w'.m == w.m
  {
    assert w.thread.PassEach? ==> w.thread.todo - {id} + {id} == w.thread.todo;
  }

  /** What a clear answers: success exactly when its write is. Whether or not it is, the pools
      it was for are not in use in memory, nor, after a success, on the media; the others keep
      their status. */
  lemma ClearAnswers(w: World, ok: bool, i: nat)
    requires WorldOk(w) && Legal(w, Clearing(ok))
    ensures var e := Clearing(ok);
            var answer, w' := PoolStep(w, e).outcome, Next(w, e);
            && (ok <==> answer == Done) && (!ok <==> answer == IoError)
            && (i in Pending(w.thread) && (w.thread.ClearEach? ==> i == w.thread.id) ==>
                  StatusOf(w'.p, i) == NotInUse && (ok ==> StatusOnMedia(w'.m, i) == NotInUse))
            && (i !in Pending(w.thread) || (w.thread.ClearEach? && i != w.thread.id) ==>
                  StatusOf(w'.p, i) == StatusOf(w.p, i))
            && (!ok ==> w'.m == w.m)
            && (ok ==> w'.m.total == w'.p.total)
            && w'.p.total == w.p.total - (|w.p.inUse| - |w'.p.inUse|)
  {
    CardinalityMinus(w.p.inUse, Cleared(w));
  }
}
