/** The tag map and the tag table over whole runs (src/kv_pool_manager.cpp): when the map is the
    exact inverse of the tags of live pools, and what a restart recovers. */
module PoolTags {
  import opened Bits
  import opened PoolManager
  import opened PoolLifecycle

  predicate TagOf(p: Pools, i: nat, name: Name) {
    i in Live(p) && i < |p.tags| && CString(p.tags[i]) == name
  }

  predicate LiveTerminated(p: Pools) {
    forall i :: i in Live(p) && i < |p.tags| ==> Terminated(p.tags[i])
  }

  /** The map is the exact inverse of the names of live tagged pools, whose entries all have a
      terminator. */
  ghost predicate TagInverse(p: Pools) {
    && (forall t :: t in p.byTag ==> t != [] && TagOf(p, p.byTag[t], t) && p.byTag[t] != 0)
    && (forall i, t :: TagOf(p, i, t) && t != [] ==> t in p.byTag && p.byTag[t] == i)
    && LiveTerminated(p)
  }

  predicate ReadAs(p: Pools, i: nat, name: Name, spill: Spill) {
    i in Live(p) && i < |p.tags| && NameOf(p.tags[i], Beyond(spill, i)) == name
  }

  /** The map is the inverse of the names as they are read with these bytes after the entries. */
  ghost predicate InverseUnder(p: Pools, spill: Spill) {
    && (forall t :: t in p.byTag ==> t != [] && ReadAs(p, p.byTag[t], t, spill) && p.byTag[t] != 0)
    && (forall i, t :: ReadAs(p, i, t, spill) && t != [] ==> t in p.byTag && p.byTag[t] == i)
  }

  /** Which is to say: it is their inverse whatever bytes follow the entries in memory. */
  lemma InverseWhateverFollows(p: Pools)
    ensures TagInverse(p) <==> forall spill: Spill :: InverseUnder(p, spill)
  {
    if TagInverse(p) {
      forall spill: Spill ensures InverseUnder(p, spill) {
        forall i: nat, t ensures ReadAs(p, i, t, spill) <==> TagOf(p, i, t) {
          if i in Live(p) && i < |p.tags| {
            NameIs(p.tags[i], Beyond(spill, i));
          }
        }
      }
    }
    if forall spill: Spill :: InverseUnder(p, spill) {
      forall i | i in Live(p) && i < |p.tags| ensures Terminated(p.tags[i]) {
        if !Terminated(p.tags[i]) {
          UnterminatedVaries(p, i);
        }
      }
      assert InverseUnder(p, []);
      forall i: nat, t ensures ReadAs(p, i, t, []) <==> TagOf(p, i, t) {
        if i in Live(p) && i < |p.tags| {
          NameIs(p.tags[i], []);
        }
      }
    }
  }

  /** An entry without a terminator is read as two names with different bytes after it. */
  lemma UnterminatedVaries(p: Pools, i: nat)
    requires i in Live(p) && i < |p.tags| && !Terminated(p.tags[i])
    ensures exists spill: Spill :: !InverseUnder(p, spill)
  {
    var e, none: Spill, one: Spill := p.tags[i], [], seq(i + 1, k => [1]);
    NameIs(e, []);
    NameIs(e, [1]);
    assert CString([1]) == [1];
    assert ReadAs(p, i, e + [1], one);
    assert |e| != |e + [1]|;
    assert !ReadAs(p, i, e + [1], none);
    assert !InverseUnder(p, none) || !InverseUnder(p, one);
  }

  /** On media, live pools carry the tags they carry in memory. */
  ghost predicate TagsAgree(p: Pools, m: PoolMedia) {
    forall i :: i in Live(p) && i < |p.tags| && i < |m.tags| ==> m.tags[i] == p.tags[i]
  }

  // ---- Creating ----------------------------------------------------------------------------

  lemma NewPoolKeepsTags(p: Pools, id: nat, tag: Entry, name: Name)
    requires TagInverse(p) && id < |p.tags| && id !in p.inUse && id != 0 && p.deleted <= p.inUse
    requires Terminated(tag) && name == CString(tag) && (name != [] ==> name !in p.byTag)
    ensures TagInverse(WithNewPool(p, id, tag, name))
  {
    var p' := WithNewPool(p, id, tag, name);
    forall i, t | TagOf(p', i, t) && t != [] ensures t in p'.byTag && p'.byTag[t] == i {
      if i != id {
        assert TagOf(p, i, t);
      }
    }
    forall t | t in p'.byTag ensures t != [] && TagOf(p', p'.byTag[t], t) && p'.byTag[t] != 0 {
      if t in p.byTag {
        assert TagOf(p, p.byTag[t], t);
      }
    }
  }

  lemma FailedCreateTags(p: Pools, p': Pools, id: nat, tag: Entry, name: Name)
    requires TagInverse(p) && id < |p.tags| && id !in p.inUse && p.deleted <= p.inUse
             && (name != [] ==> name !in p.byTag)
    requires p'.inUse == p.inUse && p'.deleted == p.deleted && p'.tags == p.tags[id := tag]
    requires p'.byTag == if name == [] then p.byTag else p.byTag[name := id]
    ensures TagInverse(p') <==> name == []
  {
    assert forall i: nat, t :: TagOf(p', i, t) <==> TagOf(p, i, t);
    if name != [] {
      assert name in p'.byTag && !TagOf(p', p'.byTag[name], name);
    }
  }

  lemma {:induction false} AtMostBound(s: set<nat>, n: nat)
    requires forall x :: x in s ==> x < n
    ensures |s| <= n
  {
    if n == 0 {
      assert s == {};
    } else {
      AtMostBound(s - {n - 1}, n - 1);
      if n - 1 in s {
        CardinalityMinus(s, {n - 1});
      } else {
        assert s - {n - 1} == s;
      }
    }
  }

  /** A create keeps the tag map exact exactly when it is of a known name, or there is no free
      id, or its tag has a terminator and is empty or persisted. */
  lemma CreateKeepsTagsIff(w: World, tag: Entry, beyond: seq<Byte>, ok: bool)
    requires WorldOk(w) && TagInverse(w.p)
    ensures var name := NameOf(tag, beyond);
            TagInverse(Create(w.sz, w.p, w.m, tag, name, ok).pools) <==>
            || name in w.p.byTag || LeastFree(w.p.inUse, 0, w.sz.maxPools) == w.sz.maxPools
            || (Terminated(tag) && (ok || name == []))
  {
    var name, id := NameOf(tag, beyond), LeastFree(w.p.inUse, 0, w.sz.maxPools);
    AtMostBound(w.p.inUse, w.sz.maxPools);
    NameIs(tag, beyond);
    if name !in w.p.byTag && id < w.sz.maxPools {
      if ok && Terminated(tag) {
        NewPoolKeepsTags(w.p, id, tag, name);
      } else if ok {
        assert id in Live(WithNewPool(w.p, id, tag, name));
      } else {
        var s := Create(w.sz, w.p, w.m, tag, name, ok);
        assert s.pools.inUse == w.p.inUse;
        FailedCreateTags(w.p, s.pools, id, tag, name);
      }
    }
  }

  /** After a create whose write failed, the name is taken: asking for it again answers with a
      pool that is not in use. */
  lemma FailedCreateTakesTag(w: World, tag: Entry, beyond: seq<Byte>, ok: bool)
    requires WorldOk(w) && Legal(w, Creating(tag, beyond, false)) && NameOf(tag, beyond) != []
    requires PoolStep(w, Creating(tag, beyond, false)).outcome == IoError
    ensures var w' := Next(w, Creating(tag, beyond, false));
            Legal(w', Creating(tag, beyond, ok))
            && var res := PoolStep(w', Creating(tag, beyond, ok)).outcome;
               res.PoolId? && StatusOf(w'.p, res.id) == NotInUse
  {
    CreateKeepsPools(w, tag, NameOf(tag, beyond), false);
  }

  // ---- Deleting and clearing ---------------------------------------------------------------

  /** The pools a delete has to do with, all or none of the marked ones among them. */
  predicate Selects(p: Pools, ids: set<nat>) {
    ids <= p.inUse && 0 !in ids && (ids == p.inUse - {0} || ids * p.deleted == {})
  }

  /** Wiping the tags of some pools and forgetting their names, whether or not they stay marked. */
  lemma MarkKeepsTags(p: Pools, p': Pools, ids: set<nat>, spill: Spill)
    requires TagInverse(p) && Selects(p, ids)
    requires p' == Marked(p, ids, spill) || p' == Marked(p, ids, spill).(deleted := p'.deleted)
    requires p.deleted - ids <= p'.deleted <= p.deleted + ids
    ensures TagInverse(p')
  {
    NameIs(NO_TAG, []);
    assert NO_TAG[0] == 0;
    assert CString(NO_TAG) == [];
    forall i, t | TagOf(p', i, t) && t != [] ensures t in p'.byTag && p'.byTag[t] == i {
      assert i !in ids && TagOf(p, i, t);
      WipedAreOthers(p, ids, spill, i, t);
    }
    forall t | t in p'.byTag ensures t != [] && TagOf(p', p'.byTag[t], t) && p'.byTag[t] != 0 {
      var i := p.byTag[t];
      assert TagOf(p, i, t);
      NameIs(p.tags[i], Beyond(spill, i));
      assert t !in NamesOf(p, ids, spill);
      var name := NameOf(p.tags[i], Beyond(spill, i));
      assert i in ids ==> name in NamesOf(p, ids, spill);
    }
  }

  lemma WipedAreOthers(p: Pools, ids: set<nat>, spill: Spill, i: nat, t: Name)
    requires TagInverse(p) && Selects(p, ids) && TagOf(p, i, t) && t != [] && i !in ids
    ensures t !in NamesOf(p, ids, spill)
  {
    assert i != 0 && i in p.inUse;
    assert forall j :: j in ids && j in p.deleted ==> j in ids * p.deleted;
    forall j | j in ids && j < |p.tags| ensures NameOf(p.tags[j], Beyond(spill, j)) != t {
      assert j in Live(p);
      NameIs(p.tags[j], Beyond(spill, j));
      assert !TagOf(p, j, t);
    }
  }

  lemma DeleteKeepsTags(w: World, e: Event)
    requires e.Deleting? && WorldOk(w) && TagInverse(w.p) && Legal(w, e)
    ensures TagInverse(PoolStep(w, e).pools)
  {
    var p' := PoolStep(w, e).pools;
    if p' != w.p {
      MarkKeepsTags(w.p, p', Targets(w.p, e.which), e.spill);
    }
  }

  /** A delete whose write fails takes the pool's tag from memory although the pool stays;
      the media keep it. */
  lemma FailedDeleteDropsTag(w: World, id: nat, spill: Spill)
    requires WorldOk(w) && Legal(w, Deleting(One(id), spill, false)) && TagInverse(w.p) && TagsAgree(w.p, w.m)
    requires id in Live(w.p) && id != 0
    ensures var w' := Next(w, Deleting(One(id), spill, false));
            id in Live(w'.p) && w'.p.tags[id] == NO_TAG && w'.m == w.m && w'.m.tags[id] == w.p.tags[id]
            && CString(w.p.tags[id]) !in w'.p.byTag
  {
    assert TagOf(w.p, id, CString(w.p.tags[id]));
    NameIs(w.p.tags[id], Beyond(spill, id));
    assert Targets(w.p, One(id)) == {id};
    assert CString(w.p.tags[id]) in NamesOf(w.p, {id}, spill);
  }

  /** The pools a clear takes out of use. */
  function Cleared(w: World): set<nat>
  {
    match w.thread
    case ClearEach(id, _) => {id}
    case ClearAllOf(ids) => ids
    case _ => {}
  }

  /** A clear keeps the map exact exactly when none of its pools is live and tagged. */
  lemma ClearKeepsTagsIff(p: Pools, ids: set<nat>)
    requires TagInverse(p)
    ensures TagInverse(Without(p, ids)) <==> forall i, t :: i in ids && TagOf(p, i, t) ==> t == []
  {
    var p' := Without(p, ids);
    assert forall i: nat, t :: TagOf(p', i, t) <==> TagOf(p, i, t) && i !in ids;
    if i: nat, t :| i in ids && TagOf(p, i, t) && t != [] {
      assert t in p'.byTag && !TagOf(p', i, t);
    } else {
      forall t | t in p'.byTag ensures TagOf(p', p'.byTag[t], t) {
        assert TagOf(p, p.byTag[t], t);
      }
    }
  }

  // ---- Restarting --------------------------------------------------------------------------

  predicate MediaTagOf(m: PoolMedia, i: nat, name: Name) {
    i < |m.tags| && i in m.inUse && i !in m.deleted && CString(m.tags[i]) == name
  }

  /** On media, the entries of live pools have terminators and no two of them the same name. */
  ghost predicate MediaTagged(m: PoolMedia) {
    && (forall i :: i < |m.tags| && i in m.inUse && i !in m.deleted ==> Terminated(m.tags[i]))
    && (forall i, j, t :: MediaTagOf(m, i, t) && MediaTagOf(m, j, t) && t != [] ==> i == j)
    && (forall t :: MediaTagOf(m, 0, t) ==> t == [])
  }

  /** A restart finds an exact map exactly when the media are tagged in this way. */
  lemma RestartKeepsTagsIff(m: PoolMedia, spill: Spill)
    ensures TagInverse(Restored(m, spill)) <==> MediaTagged(m)
  {
    var p := Restored(m, spill);
    assert forall i: nat, t :: TagOf(p, i, t) <==> MediaTagOf(m, i, t);
    if LiveTerminated(p) {
      forall i: nat, t ensures Carries(m, i, t, spill) <==> MediaTagOf(m, i, t) {
        if i < |m.tags| {
          NameIs(m.tags[i], Beyond(spill, i));
        }
      }
      forall t ensures t in p.byTag <==> t != [] && exists i :: 1 <= i < |m.tags| && MediaTagOf(m, i, t)
               ensures t in p.byTag ==> p.byTag[t] >= 1 && MediaTagOf(m, p.byTag[t], t)
      {
        RestoredTags(m, |m.tags|, t, spill);
      }
      if MediaTagged(m) {
        forall i, t | TagOf(p, i, t) && t != [] ensures t in p.byTag && p.byTag[t] == i {
          assert MediaTagOf(m, i, t);
        }
      }
    }
  }

  // ---- Runs --------------------------------------------------------------------------------

  ghost predicate TagsOk(w: World) {
    TagInverse(w.p)
  }

  /** A create of a new name that is not persisted or has no terminator, a clear of a tagged pool
      that had been unmarked, a restart from media that are not tagged as they should be. */
  ghost predicate BreaksTags(w: World, e: Event) {
    match e
    case Creating(tag, beyond, ok) =>
      var name := NameOf(tag, beyond);
      && name !in w.p.byTag && LeastFree(w.p.inUse, 0, w.sz.maxPools) < w.sz.maxPools
      && !(Terminated(tag) && (ok || name == []))
    case Clearing(_) => exists i, t :: i in Cleared(w) && TagOf(w.p, i, t) && t != []
    case Restarting(_) => !MediaTagged(w.m)
    case _ => false
  }

  lemma StepKeepsTagsIff(w: World, e: Event)
    requires WorldOk(w) && TagsOk(w) && Legal(w, e)
    ensures TagsOk(Next(w, e)) <==> !BreaksTags(w, e)
  {
    match e {
      case Creating(tag, beyond, ok) => CreateKeepsTagsIff(w, tag, beyond, ok);
      case Deleting(_, _, _) => DeleteKeepsTags(w, e);
      case Clearing(ok) =>
        ClearKeepsTagsIff(w.p, Cleared(w));
        assert PoolStep(w, e).pools == Without(w.p, Cleared(w));
      case Restarting(spill) => RestartKeepsTagsIff(w.m, spill);
      case _ =>
    }
  }

  /** The tag map is exact in every state of a run exactly when the run has no such step. */
  lemma TagsExactIff(sz: Sizes, es: seq<Event>)
    requires sz.maxPools > 0 && LegalRun(Formatted(sz), es)
    ensures Always(Formatted(sz), es, TagsOk) <==> Never(Formatted(sz), es, BreaksTags)
    ensures Never(Formatted(sz), es, BreaksTags) ==>
              forall spill: Spill :: InverseUnder(After(Formatted(sz), es).p, spill)
  {
    FormattedOk(sz);
    FormattedTags(sz);
    PoolsStayOk();
    forall v, e | WorldOk(v) && TagsOk(v) && Legal(v, e)
      ensures TagsOk(Next(v, e)) <==> !BreaksTags(v, e)
    {
      StepKeepsTagsIff(v, e);
    }
    AlwaysIffNever(Formatted(sz), es, WorldOk, TagsOk, BreaksTags);
    InverseWhateverFollows(After(Formatted(sz), es).p);
  }

  lemma FormattedTags(sz: Sizes)
    ensures TagInverse(Formatted(sz).p) && TagsAgree(Formatted(sz).p, Formatted(sz).m)
  {
    assert NO_TAG[0] == 0;
    assert CString(NO_TAG) == [];
  }

  // ---- Recovery ----------------------------------------------------------------------------

  /** Every write succeeds, and every new tag has a terminator. */
  predicate Persisted(e: Event) {
    match e
    case Creating(tag, _, ok) => ok && Terminated(tag)
    case Deleting(_, _, ok) => ok
    case Clearing(ok) => ok
    case _ => true
  }

  predicate AllPersisted(es: seq<Event>) {
    forall i :: 0 <= i < |es| ==> Persisted(es[i])
  }

  ghost predicate Restorable(w: World) {
    WorldOk(w) && Synced(w) && TagInverse(w.p) && TagsAgree(w.p, w.m) && Pending(w.thread) <= w.p.deleted
  }

  lemma RestorableMedia(w: World)
    requires Restorable(w)
    ensures MediaTagged(w.m)
  {
    assert forall i: nat, t :: MediaTagOf(w.m, i, t) ==> TagOf(w.p, i, t);
  }

  lemma NothingBreaks(w: World, e: Event)
    requires Restorable(w) && Legal(w, e) && Persisted(e)
    ensures !BreaksTags(w, e)
  {
    if e.Restarting? {
      RestorableMedia(w);
    }
  }

  lemma StepKeepsAgreement(w: World, e: Event)
    requires Restorable(w) && Legal(w, e) && Persisted(e)
    ensures TagsAgree(PoolStep(w, e).pools, PoolStep(w, e).media)
  {
  }

  lemma StepKeepsRestorable(w: World, e: Event)
    requires Restorable(w) && Legal(w, e) && Persisted(e)
    ensures Restorable(Next(w, e))
  {
    StepKeepsPools(w, e);
    StepSyncsIff(w, e);
    NothingBreaks(w, e);
    StepKeepsTagsIff(w, e);
    StepKeepsAgreement(w, e);
    StepKeepsPending(w, e);
  }

  lemma StepKeepsPending(w: World, e: Event)
    requires Restorable(w) && Legal(w, e) && Persisted(e)
    ensures Pending(ThreadStep(w, e)) <= PoolStep(w, e).pools.deleted
  {
  }

  lemma {:induction false} RunKeepsRestorable(w: World, es: seq<Event>)
    requires Restorable(w) && LegalRun(w, es) && AllPersisted(es)
    ensures Restorable(After(w, es))
    decreases |es|
  {
    if es != [] {
      assert Persisted(es[0]);
      StepKeepsRestorable(w, es[0]);
      RunKeepsRestorable(Next(w, es[0]), es[1..]);
    }
  }

  /** As long as writes succeed and tags have terminators, a restart at any point of any run
      recovers the bitmaps, the count and the tag map exactly as they were in memory. */
  lemma RestartRecovers(sz: Sizes, es: seq<Event>, spill: Spill)
    requires sz.maxPools > 0 && LegalRun(Formatted(sz), es) && AllPersisted(es)
    ensures var w := After(Formatted(sz), es);
            Consistent(w.m) && Restored(w.m, spill) == w.p.(tags := w.m.tags)
  {
    FormattedOk(sz);
    FormattedTags(sz);
    RunKeepsRestorable(Formatted(sz), es);
    RestoredMapIsExact(After(Formatted(sz), es), spill);
  }

  lemma RestoredMapIsExact(w: World, spill: Spill)
    requires Restorable(w)
    ensures TagsBelow(w.m, |w.m.tags|, spill) == w.p.byTag
  {
    var p := Restored(w.m, spill);
    RestorableMedia(w);
    RestartKeepsTagsIff(w.m, spill);
    forall t ensures t in p.byTag <==> t in w.p.byTag
             ensures t in p.byTag ==> p.byTag[t] == w.p.byTag[t]
    {
      if t in p.byTag {
        assert TagOf(p, p.byTag[t], t);
        assert TagOf(w.p, p.byTag[t], t);
      }
      if t in w.p.byTag {
        assert TagOf(w.p, w.p.byTag[t], t);
        assert TagOf(p, w.p.byTag[t], t);
      }
    }
  }

  // ---- Sixteen bytes without a zero --------------------------------------------------------

  /** The store after a first create with the given tag. */
  function OnePool(sz: Sizes, tag: Entry, beyond: seq<Byte>): World
    requires sz.maxPools > 1
  {
    Next(Formatted(sz), Creating(tag, beyond, true))
  }

  lemma OnePoolIs(sz: Sizes, tag: Entry, beyond: seq<Byte>)
    requires sz.maxPools > 1
    ensures LeastFree({0}, 0, sz.maxPools) == 1
    ensures var p, m := OnePool(sz, tag, beyond).p, OnePool(sz, tag, beyond).m;
            p.inUse == {0, 1} && p.deleted == {} && |p.tags| == sz.maxPools && p.tags[1] == tag
            && p.byTag == (if NameOf(tag, beyond) == [] then map[] else map[NameOf(tag, beyond) := 1])
            && m.deleted == {} && 1 in m.inUse && |m.tags| == sz.maxPools && m.tags[1] == tag
  {
    assert LeastFree({0}, 1, sz.maxPools) == 1;
  }

  /** A delete erases the name under which a create has entered its pool exactly when the tag
      has a terminator or the same bytes follow it both times. */
  lemma DeleteForgetsTagIff(sz: Sizes, tag: Entry, beyond: seq<Byte>, spill: Spill)
    requires sz.maxPools > 1 && NameOf(tag, beyond) != []
    ensures var w := OnePool(sz, tag, beyond);
            NameOf(tag, beyond) !in Next(w, Deleting(One(1), spill, true)).p.byTag
            <==> Terminated(tag) || CString(beyond) == CString(Beyond(spill, 1))
  {
    OnePoolIs(sz, tag, beyond);
    var w := OnePool(sz, tag, beyond);
    assert Targets(w.p, One(1)) == {1};
    assert NamesOf(w.p, {1}, spill) == {NameOf(tag, Beyond(spill, 1))};
    NamesAgreeIff(tag, beyond, Beyond(spill, 1));
  }

  lemma NamesAgreeIff(tag: Entry, a: seq<Byte>, b: seq<Byte>)
    ensures NameOf(tag, a) == NameOf(tag, b) <==> Terminated(tag) || CString(a) == CString(b)
  {
    NameIs(tag, a);
    NameIs(tag, b);
    if !Terminated(tag) && NameOf(tag, a) == NameOf(tag, b) {
      assert (tag + CString(a))[TAG_SIZE..] == CString(a) && (tag + CString(b))[TAG_SIZE..] == CString(b);
    }
  }

  /** What a restart makes of that store: the one name it reads. */
  lemma OneName(sz: Sizes, tag: Entry, beyond: seq<Byte>, spill: Spill)
    requires sz.maxPools > 1 && NameOf(tag, Beyond(spill, 1)) != []
    ensures Restored(OnePool(sz, tag, beyond).m, spill).byTag == map[NameOf(tag, Beyond(spill, 1)) := 1]
  {
    var m, name := OnePool(sz, tag, beyond).m, NameOf(tag, Beyond(spill, 1));
    var r := Restored(m, spill).byTag;
    OnlyOneCarries(sz, tag, beyond, spill);
    assert Carries(m, 1, name, spill);
    forall t ensures t in r <==> t == name ensures t in r ==> r[t] == 1 {
      RestoredTags(m, |m.tags|, t, spill);
    }
  }

  lemma OnlyOneCarries(sz: Sizes, tag: Entry, beyond: seq<Byte>, spill: Spill)
    requires sz.maxPools > 1
    ensures var m := OnePool(sz, tag, beyond).m;
            |m.tags| == sz.maxPools
            && forall i, t :: i >= 1 ==> (Carries(m, i, t, spill) <==> i == 1 && t == NameOf(tag, Beyond(spill, 1)))
  {
    OnePoolIs(sz, tag, beyond);
  }

  /** A restart finds the pool under that name exactly then, too. */
  lemma RestartFindsTagIff(sz: Sizes, tag: Entry, beyond: seq<Byte>, spill: Spill)
    requires sz.maxPools > 1 && NameOf(tag, beyond) != []
    ensures var w := OnePool(sz, tag, beyond);
            Restored(w.m, spill).byTag == w.p.byTag <==> Terminated(tag) || CString(beyond) == CString(Beyond(spill, 1))
  {
    NameIs(tag, beyond);
    NameIs(tag, Beyond(spill, 1));
    OnePoolIs(sz, tag, beyond);
    OneName(sz, tag, beyond, spill);
    NamesAgreeIff(tag, beyond, Beyond(spill, 1));
    var a, b := NameOf(tag, beyond), NameOf(tag, Beyond(spill, 1));
    assert a in map[a := 1] && (a in map[b := 1] <==> a == b);
  }
}
