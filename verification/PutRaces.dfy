/** When concurrent puts lose a pair: the range query and the lock are separate steps of kv_put
    (src/kv_store_mgr.cpp), so a put can lock an address that was taken after it looked. */
module PutRaces {
  import opened PutLocks

  predicate OverwritesOther(s: State, t: nat)
    requires t < |s.threads|
  {
    var th := s.threads[t];
    th.pc.Writing? && Lba(th) in s.media && s.media[Lba(th)] != th.key
  }

  predicate Loses(s: State, es: seq<Event>, t: nat) {
    LegalRun(s, es) && t < |After(s, es).threads| && OverwritesOther(After(s, es), t)
  }

  /** Some interleaving brings a put to write over another key's pair. */
  ghost predicate CanLosePair(s: State) {
    exists es, t: nat :: Loses(s, es, t)
  }

  // ---- Without a common free address -------------------------------------------------------

  /** A put gets as far as its i-th address unless an earlier one already holds its key. */
  predicate CanReach(s: State, th: Thread, i: nat) {
    i <= |th.probes| && forall k :: 0 <= k < i ==> Content(s, th.probes[k]) != Holds(th.key)
  }

  /** Puts of different keys have a common address that nothing is stored at. */
  predicate Share(s: State, t: nat, u: nat, i: nat, j: nat) {
    && t < |s.threads| && u < |s.threads| && s.threads[t].key != s.threads[u].key
    && i < |s.threads[t].probes| && j < |s.threads[u].probes|
    && s.threads[t].probes[i] == s.threads[u].probes[j] && s.threads[t].probes[i] !in s.media
    && CanReach(s, s.threads[t], i) && CanReach(s, s.threads[u], j)
  }

  ghost predicate Shared(s: State) {
    exists t: nat, u: nat, i: nat, j: nat :: Share(s, t, u, i, j)
  }

  /** A thread is where its walk over the media of the start can have brought it. */
  predicate OnItsWay(s0: State, th0: Thread, th: Thread) {
    && th.key == th0.key && th.probes == th0.probes && CanReach(s0, th0, th.i)
    && (th.pc.Inserting? || th.pc.Writing? ==> Content(s0, Lba(th)) in {Empty, Holds(th.key)})
    && (th.pc.Releasing? ==> CanReach(s0, th0, th.i + 1))
  }

  predicate WrittenBy(s0: State, x: nat, key: nat, u: nat, j: nat) {
    u < |s0.threads| && s0.threads[u].key == key && j < |s0.threads[u].probes| && s0.threads[u].probes[j] == x
    && CanReach(s0, s0.threads[u], j)
  }

  /** What the media and the threads can be in any state reached from s0. */
  ghost predicate Since(s0: State, s: State) {
    && |s.threads| == |s0.threads|
    && (forall t :: 0 <= t < |s.threads| ==> OnItsWay(s0, s0.threads[t], s.threads[t]))
    && (forall x :: x in s0.media ==> x in s.media && s.media[x] == s0.media[x])
    && (forall x :: x in s.media && x !in s0.media ==> exists u: nat, j: nat :: WrittenBy(s0, x, s.media[x], u, j))
  }

  lemma ReachesNext(s0: State, th0: Thread, i: nat)
    requires i < |th0.probes| && CanReach(s0, th0, i) && Content(s0, th0.probes[i]) != Holds(th0.key)
    ensures CanReach(s0, th0, i + 1)
  {
  }

  /** A key that was stored at the start stays, so a thread that does not see its own did not
      have it there. */
  lemma SeesOldKeys(s0: State, s: State, th: Thread)
    requires Since(s0, s)
    ensures Content(s0, Lba(th)) in {Empty, Content(s, Lba(th))}
  {
  }

  lemma StepKeepsWay(s0: State, s: State, e: Event)
    requires Inv(s) && Since(s0, s) && Legal(s, e)
    ensures OnItsWay(s0, s0.threads[e.t], StepThread(s, e))
  {
    var th, th0 := s.threads[e.t], s0.threads[e.t];
    assert ThreadOk(th) && OnItsWay(s0, th0, th);
    SeesOldKeys(s0, s, th);
    StepStaysOnWay(s0, s, e, th0);
  }

  lemma StepStaysOnWay(s0: State, s: State, e: Event, th0: Thread)
    requires Legal(s, e) && ThreadOk(s.threads[e.t]) && OnItsWay(s0, th0, s.threads[e.t])
    requires Content(s0, Lba(s.threads[e.t])) in {Empty, Content(s, Lba(s.threads[e.t]))}
    ensures OnItsWay(s0, th0, StepThread(s, e))
  {
    var th := s.threads[e.t];
    if th.pc.Reading? && Content(s, Lba(th)) != Holds(th.key) {
      ReachesNext(s0, th0, th.i);
    }
  }

  lemma StepKeepsSince(s0: State, s: State, e: Event)
    requires Inv(s) && Since(s0, s) && Legal(s, e)
    ensures Since(s0, Next(s, e))
  {
    var th := s.threads[e.t];
    StepKeepsWay(s0, s, e);
    assert ThreadOk(th) && OnItsWay(s0, s0.threads[e.t], th);
    WriteKeepsMedia(s0, s, e, th);
  }

  lemma WriteKeepsMedia(s0: State, s: State, e: Event, th: Thread)
    requires Since(s0, s) && Legal(s, e) && th == s.threads[e.t] && ThreadOk(th)
    ensures forall x :: x in s0.media ==> x in StepMedia(s, e) && StepMedia(s, e)[x] == s0.media[x]
    ensures forall x :: x in StepMedia(s, e) && x !in s0.media ==>
                        exists u: nat, j: nat :: WrittenBy(s0, x, StepMedia(s, e)[x], u, j)
  {
    assert OnItsWay(s0, s0.threads[e.t], th);
    if th.pc.Writing? {
      assert WrittenBy(s0, Lba(th), th.key, e.t, th.i);
    }
  }

  lemma {:induction false} RunKeepsSince(s0: State, s: State, es: seq<Event>)
    requires Inv(s) && Since(s0, s) && LegalRun(s, es)
    ensures Inv(After(s, es)) && Since(s0, After(s, es))
    decreases |es|
  {
    if es != [] {
      StepKeepsInv(s, es[0]);
      StepKeepsSince(s0, s, es[0]);
      RunKeepsSince(s0, Next(s, es[0]), es[1..]);
    }
  }

  /** Without a common address nothing is lost, whatever the keys. */
  lemma LossNeedsShared(s: State, es: seq<Event>, t: nat)
    requires Initial(s) && Loses(s, es, t)
    ensures Shared(s)
  {
    InitialInv(s);
    assert forall v :: 0 <= v < |s.threads| ==> AtStart(s.threads[v]);
    RunKeepsSince(s, s, es);
    var s' := After(s, es);
    var th := s'.threads[t];
    assert ThreadOk(th) && OnItsWay(s, s.threads[t], th);
    var u: nat, j: nat :| WrittenBy(s, Lba(th), s'.media[Lba(th)], u, j);
    assert Share(s, t, u, th.i, j);
  }

  // ---- Calls one after another -------------------------------------------------------------

  /** A put goes past its k-th address: another key's pair is there, or in the window only
      sectors of other pools. */
  predicate Blocked(s: State, th: Thread, k: nat)
    requires k < |th.probes|
  {
    var lba := th.probes[k];
    if lba in s.media then s.media[lba] != th.key else lba in s.foreign
  }

  /** The first address from the k-th on that does not block a put. */
  function FirstOpen(s: State, th: Thread, k: nat): (r: nat)
    requires k <= |th.probes|
    ensures k <= r <= |th.probes| && (r < |th.probes| ==> !Blocked(s, th, r))
    ensures forall j :: k <= j < r ==> Blocked(s, th, j)
    decreases |th.probes| - k
  {
    if k == |th.probes| || !Blocked(s, th, k) then k else FirstOpen(s, th, k + 1)
  }

  /** Running alone, a put stores its pair at address i, where nothing was stored. */
  predicate Takes(s: State, th: Thread, i: nat) {
    i == FirstOpen(s, th, 0) < |th.probes| && th.probes[i] !in s.media
  }

  /** The media after one call has run alone. If it finds its key or no room they stay as they were. */
  function Alone(s: State, t: nat): (s': State)
    requires t < |s.threads|
    ensures s' == s.(media := s'.media)
  {
    var th := s.threads[t];
    var i := FirstOpen(s, th, 0);
    if Takes(s, th, i) then s.(media := s.media[th.probes[i] := th.key]) else s
  }

  /** The media after some of the calls have run one after another. */
  function Serial(s: State, calls: seq<nat>): (s': State)
    requires forall i :: 0 <= i < |calls| ==> calls[i] < |s.threads|
    ensures s' == s.(media := s'.media)
  {
    if calls == [] then s else Alone(Serial(s, calls[..|calls| - 1]), calls[|calls| - 1])
  }

  /** Distinct calls, t and u not among them. */
  predicate Others(s: State, calls: seq<nat>, t: nat, u: nat) {
    && (forall i :: 0 <= i < |calls| ==> calls[i] < |s.threads| && calls[i] != t && calls[i] != u)
    && (forall i, j :: 0 <= i < j < |calls| ==> calls[i] != calls[j])
  }

  /** After some of the other calls have run, t and u would both store their pairs at one address. */
  ghost predicate Contend(s: State, calls: seq<nat>, t: nat, u: nat) {
    && t < |s.threads| && u < |s.threads| && t != u && Others(s, calls, t, u)
    && MeetAt(Serial(s, calls), s.threads[t], s.threads[u])
  }

  ghost predicate MeetAt(s: State, a: Thread, b: Thread) {
    exists i: nat, j: nat :: Takes(s, a, i) && Takes(s, b, j) && a.probes[i] == b.probes[j]
  }

  ghost predicate Contended(s: State) {
    exists calls, t: nat, u: nat :: Contend(s, calls, t, u)
  }

  predicate DistinctKeys(s: State) {
    forall t, u :: 0 <= t < u < |s.threads| ==> s.threads[t].key != s.threads[u].key
  }

  // ---- Without contention ------------------------------------------------------------------

  predicate Passed(s: State, th: Thread) {
    th.i <= |th.probes| && forall k :: 0 <= k < th.i ==> Blocked(s, th, k)
  }

  predicate Open(s: State, th: Thread) {
    th.i < |th.probes| && !Blocked(s, th, th.i)
  }

  /** A thread that never had to wait: what it went past still blocks it, what it is about to
      take or has failed to write is still open, and what it wrote is there. */
  predicate OnCourse(s: State, th: Thread) {
    && th.pc != Inserting(true) && !th.pc.Releasing? && (th.pc.Reading? ==> !th.insertLba && WindowMapped(s, Lba(th)))
    && Passed(s, th)
    && (th.pc.Inserting? || th.pc.Writing? || (th.pc.Finishing? && th.insertLba && th.result != Stored) ==> Open(s, th))
    && (th.result == Stored ==> th.i < |th.probes| && Content(s, Lba(th)) == Holds(th.key))
  }

  /** The calls that have stored their pairs, in this order, explain the media. */
  ghost predicate Course(s0: State, s: State, calls: seq<nat>) {
    && |s.threads| == |s0.threads| && s.foreign == s0.foreign
    && Others(s0, calls, |s0.threads|, |s0.threads|) && s.media == Serial(s0, calls).media
    && (forall t: nat :: t < |s.threads| ==> CallOk(s0, s, calls, t))
  }

  predicate CallOk(s0: State, s: State, calls: seq<nat>, t: nat)
    requires t < |s.threads| == |s0.threads|
  {
    var th := s.threads[t];
    th.key == s0.threads[t].key && th.probes == s0.threads[t].probes && (t in calls <==> th.result == Stored)
    && OnCourse(s, th)
  }

  lemma OpenIsFirst(s: State, th: Thread)
    requires Passed(s, th) && Open(s, th)
    ensures FirstOpen(s, th, 0) == th.i
  {
    var r := FirstOpen(s, th, 0);
    assert r >= th.i;
  }

  /** First addresses depend on key, probes and media alone. */
  lemma {:induction false} SameOpen(s: State, s': State, th: Thread, th': Thread, k: nat)
    requires s.media == s'.media && s.foreign == s'.foreign && th.key == th'.key && th.probes == th'.probes
    requires k <= |th.probes|
    ensures FirstOpen(s, th, k) == FirstOpen(s', th', k)
    decreases |th.probes| - k
  {
    if k < |th.probes| {
      SameOpen(s, s', th, th', k + 1);
    }
  }

  /** An open address where nothing is stored is one the call would take after those that have. */
  lemma OpenIsTaken(s0: State, s: State, calls: seq<nat>, t: nat)
    requires Course(s0, s, calls) && t < |s.threads| && Open(s, s.threads[t]) && Lba(s.threads[t]) !in s.media
    ensures Takes(Serial(s0, calls), s0.threads[t], s.threads[t].i)
  {
    var th := s.threads[t];
    assert CallOk(s0, s, calls, t);
    OpenIsFirst(s, th);
    SameOpen(s, Serial(s0, calls), th, s0.threads[t], 0);
  }

  /** Two calls that have not stored their pairs do not have one address open with nothing there. */
  lemma OpenApart(s0: State, s: State, calls: seq<nat>, t: nat, u: nat)
    requires Course(s0, s, calls) && !Contended(s0) && t < |s.threads| && u < |s.threads| && t != u
    requires s.threads[t].result != Stored && s.threads[u].result != Stored
    requires Open(s, s.threads[t]) && Open(s, s.threads[u]) && Lba(s.threads[t]) !in s.media
    ensures Lba(s.threads[t]) != Lba(s.threads[u])
  {
    assert CallOk(s0, s, calls, t) && CallOk(s0, s, calls, u);
    if Lba(s.threads[t]) == Lba(s.threads[u]) {
      OpenIsTaken(s0, s, calls, t);
      OpenIsTaken(s0, s, calls, u);
      assert Others(s0, calls, t, u);
      assert MeetAt(Serial(s0, calls), s0.threads[t], s0.threads[u]);
      assert Contend(s0, calls, t, u);
    }
  }

  /** No put finds its address held. */
  lemma NobodyWaits(s0: State, s: State, calls: seq<nat>, t: nat)
    requires Inv(s) && Course(s0, s, calls) && !Contended(s0) && DistinctKeys(s0)
    requires t < |s.threads| && s.threads[t].pc.Inserting?
    ensures Lba(s.threads[t]) !in s.safe
  {
    var th := s.threads[t];
    assert CallOk(s0, s, calls, t) && ThreadOk(th);
    if Lba(th) in s.safe {
      var v: nat :| HoldsLock(s, v, Lba(th));
      var other := s.threads[v];
      assert CallOk(s0, s, calls, v) && ThreadOk(other);
      assert other.key != th.key;
      if Lba(th) !in s.media {
        OpenApart(s0, s, calls, t, v);
      }
      assert false;
    }
  }

  /** One more pair, where nothing or the same key was stored, and no other pool's sectors. */
  predicate Adds(s: State, s': State, lba: nat, key: nat) {
    && s'.media == s.media[lba := key] && s'.foreign == s.foreign
    && (if lba in s.media then s.media[lba] == key else lba !in s.foreign)
  }

  /** What blocked a thread still does, whether or not a pair was added. */
  lemma StaysPassed(s: State, s': State, lba: nat, key: nat, th: Thread, th': Thread)
    requires Passed(s, th) && th'.key == th.key && th'.probes == th.probes && th'.i == th.i
    requires Adds(s, s', lba, key) || (s'.media == s.media && s'.foreign == s.foreign)
    ensures Passed(s', th')
  {
    forall k | 0 <= k < th'.i ensures Blocked(s', th', k) {
      assert Blocked(s, th, k);
    }
  }

  lemma PassesOneMore(s: State, th: Thread, th': Thread)
    requires Passed(s, th) && th.i < |th.probes| && Blocked(s, th, th.i)
    requires th'.key == th.key && th'.probes == th.probes && th'.i == th.i + 1
    ensures Passed(s, th')
  {
    forall k | 0 <= k < th'.i ensures Blocked(s, th', k) {
      assert Blocked(s, th, k);
    }
  }

  /** The step that stores t's pair. */
  predicate Stores(s: State, e: Event) {
    Legal(s, e) && s.threads[e.t].pc.Writing? && !e.env.fault
  }

  lemma StoreAdds(s0: State, s: State, calls: seq<nat>, e: Event)
    requires Inv(s) && Course(s0, s, calls) && Stores(s, e)
    ensures Open(s, s.threads[e.t]) && Adds(s, Next(s, e), Lba(s.threads[e.t]), s.threads[e.t].key)
  {
    assert CallOk(s0, s, calls, e.t) && ThreadOk(s.threads[e.t]);
  }

  lemma StoreIsNext(s0: State, s: State, calls: seq<nat>, e: Event)
    requires Inv(s) && Course(s0, s, calls) && Stores(s, e)
    ensures Others(s0, calls + [e.t], |s0.threads|, |s0.threads|)
    ensures Next(s, e).media == Serial(s0, calls + [e.t]).media
  {
    var th := s.threads[e.t];
    assert CallOk(s0, s, calls, e.t) && ThreadOk(th);
    SerialAppends(s0, calls, e.t);
    OpenIsFirst(s, th);
    SameOpen(s, Serial(s0, calls), th, s0.threads[e.t], 0);
  }

  lemma SerialAppends(s: State, calls: seq<nat>, t: nat)
    requires t < |s.threads| && forall i :: 0 <= i < |calls| ==> calls[i] < |s.threads|
    ensures Serial(s, calls + [t]) == Alone(Serial(s, calls), t)
  {
    assert (calls + [t])[..|calls|] == calls;
  }

  /** A step disturbs no other thread's course. */
  lemma OtherStays(s0: State, s: State, calls: seq<nat>, e: Event, v: nat)
    requires Inv(s) && Course(s0, s, calls) && !Contended(s0) && Legal(s, e) && v < |s.threads| && v != e.t
    ensures OnCourse(Next(s, e), s.threads[v])
  {
    assert CallOk(s0, s, calls, v);
    if Stores(s, e) {
      StoreKeepsOther(s0, s, calls, e, v);
    } else {
      StaysPassed(s, Next(s, e), 0, 0, s.threads[v], s.threads[v]);
    }
  }

  /** Storing a pair at an open address does not. */
  lemma StoreKeepsOther(s0: State, s: State, calls: seq<nat>, e: Event, v: nat)
    requires Inv(s) && Course(s0, s, calls) && !Contended(s0) && Stores(s, e) && v < |s.threads| && v != e.t
    ensures OnCourse(Next(s, e), s.threads[v])
  {
    var th, other := s.threads[e.t], s.threads[v];
    assert CallOk(s0, s, calls, e.t) && CallOk(s0, s, calls, v) && ThreadOk(th) && ThreadOk(other);
    StoreAdds(s0, s, calls, e);
    StaysPassed(s, Next(s, e), Lba(th), th.key, other, other);
    if Lba(th) !in s.media && Open(s, other) && other.result != Stored {
      OpenApart(s0, s, calls, e.t, v);
    }
  }

  /** A step keeps the stepping thread on course. */
  lemma StepKeepsOwn(s0: State, s: State, calls: seq<nat>, e: Event)
    requires Inv(s) && Course(s0, s, calls) && !Contended(s0) && DistinctKeys(s0) && Legal(s, e)
    ensures OnCourse(Next(s, e), StepThread(s, e))
    ensures StepThread(s, e).result == Stored <==> s.threads[e.t].result == Stored || Stores(s, e)
  {
    var th, th' := s.threads[e.t], StepThread(s, e);
    assert CallOk(s0, s, calls, e.t) && ThreadOk(th);
    if th.pc.Inserting? {
      NobodyWaits(s0, s, calls, e.t);
    }
    if Stores(s, e) {
      StoreAdds(s0, s, calls, e);
    }
    if th'.i == th.i {
      StaysPassed(s, Next(s, e), Lba(th), th.key, th, th');
    } else {
      PassesOneMore(s, th, th');
      StaysPassed(s, Next(s, e), Lba(th), th.key, th', th');
    }
  }

  lemma StepKeepsCourse(s0: State, s: State, calls: seq<nat>, e: Event) returns (calls': seq<nat>)
    requires Inv(s) && Course(s0, s, calls) && !Contended(s0) && DistinctKeys(s0) && Legal(s, e)
    ensures Course(s0, Next(s, e), calls')
  {
    var s' := Next(s, e);
    calls' := if Stores(s, e) then calls + [e.t] else calls;
    StepKeepsOwn(s0, s, calls, e);
    if Stores(s, e) {
      StoreIsNext(s0, s, calls, e);
    }
    forall v: nat | v < |s'.threads| ensures CallOk(s0, s', calls', v) {
      assert CallOk(s0, s, calls, v);
      if v != e.t {
        OtherStays(s0, s, calls, e, v);
      }
    }
  }

  lemma {:induction false} RunKeepsCourse(s0: State, s: State, calls: seq<nat>, es: seq<Event>)
    returns (calls': seq<nat>)
    requires Inv(s) && Course(s0, s, calls) && !Contended(s0) && DistinctKeys(s0) && LegalRun(s, es)
    ensures Course(s0, After(s, es), calls') && Inv(After(s, es))
    decreases |es|
  {
    calls' := calls;
    if es != [] {
      StepKeepsInv(s, es[0]);
      calls' := StepKeepsCourse(s0, s, calls, es[0]);
      calls' := RunKeepsCourse(s0, Next(s, es[0]), calls', es[1..]);
    }
  }

  /** Without contention every reachable state is one the calls could have reached one after
      another: its media are those of the calls that have stored their pairs, nobody waits, and
      nobody is about to write over another key. */
  lemma UncontendedIsSerial(s: State, es: seq<Event>) returns (calls: seq<nat>)
    requires Initial(s) && DistinctKeys(s) && !Contended(s) && LegalRun(s, es)
    ensures |After(s, es).threads| == |s.threads| && Others(s, calls, |s.threads|, |s.threads|)
    ensures After(s, es).media == Serial(s, calls).media
    ensures forall t: nat :: t < |s.threads| ==>
              && (t in calls <==> After(s, es).threads[t].result == Stored)
              && !OverwritesOther(After(s, es), t) && After(s, es).threads[t].pc != Inserting(true)
  {
    InitialInv(s);
    forall t: nat | t < |s.threads| ensures CallOk(s, s, [], t) {
      assert AtStart(s.threads[t]);
    }
    calls := RunKeepsCourse(s, s, [], es);
    forall t: nat | t < |s.threads|
      ensures t in calls <==> After(s, es).threads[t].result == Stored
      ensures !OverwritesOther(After(s, es), t) && After(s, es).threads[t].pc != Inserting(true)
    {
      assert CallOk(s, After(s, es), calls, t);
    }
  }

  // ---- With contention ---------------------------------------------------------------------

  lemma {:induction false} RunAppend(s: State, a: seq<Event>, b: seq<Event>)
    requires LegalRun(s, a) && LegalRun(After(s, a), b)
    ensures LegalRun(s, a + b) && After(s, a + b) == After(After(s, a), b)
    decreases |a|
  {
    if a == [] {
      assert a + b == b;
    } else {
      assert (a + b)[1..] == a[1..] + b;
      RunAppend(Next(s, a[0]), a[1..], b);
    }
  }

  /** One more step of a run. */
  lemma RunMore(s: State, es: seq<Event>, e: Event) returns (es': seq<Event>)
    requires LegalRun(s, es) && Legal(After(s, es), e)
    ensures es' == es + [e] && LegalRun(s, es') && After(s, es') == Next(After(s, es), e)
  {
    es' := es + [e];
    assert [e][1..] == [];
    RunAppend(s, es, [e]);
  }

  /** The state with one thread moved. */
  predicate Moved(s: State, t: nat, th: Thread, s': State) {
    t < |s.threads| && s' == s.(threads := s.threads[t := th])
  }

  function Fresh(key: nat, probes: seq<nat>): Thread {
    Thread(key, false, probes, CheckRange, 0, false, false, Empty, Empty, Pending)
  }

  function Quiet(t: nat): Event {
    Event(t, Env(false, false, false))
  }

  /** A thread that is blocked up to its n-th address walks up to it. */
  lemma {:induction false} Walk(s: State, t: nat, n: nat) returns (es: seq<Event>, th: Thread)
    requires t < |s.threads| && AtStart(s.threads[t]) && n < PROBES
    requires forall k :: 0 <= k < n ==> Blocked(s, s.threads[t], k)
    ensures th == s.threads[t].(i := n, seen := th.seen)
    ensures LegalRun(s, es) && Moved(s, t, th, After(s, es))
    decreases n
  {
    if n == 0 {
      es, th := [], s.threads[t];
      assert s.threads[t := th] == s.threads;
    } else {
      var before;
      es, before := Walk(s, t, n - 1);
      assert Blocked(s, s.threads[t], n - 1);
      var ask := Event(t, Env(true, false, false));
      es := RunMore(s, es, ask);
      assert Moved(s, t, before.(pc := Reading), After(s, es));
      es := RunMore(s, es, ask);
      th := After(s, es).threads[t];
    }
  }

  /** Two threads at one free address: both find it empty, the second writes and leaves, and
      the first takes the lock without a wait. */
  lemma RaceAt(s: State, t: nat, u: nat) returns (es: seq<Event>)
    requires t < |s.threads| && u < |s.threads| && s.threads[t].key != s.threads[u].key
    requires s.threads[t].pc.CheckRange? && s.threads[u].pc.CheckRange? && s.safe == {}
    requires Lba(s.threads[t]) == Lba(s.threads[u]) && Lba(s.threads[t]) !in s.media
    requires Lba(s.threads[t]) !in s.foreign
    ensures Loses(s, es, t)
  {
    var e := OtherWrites(s, t, u);
    es := RunMore(s, e, Quiet(t));
  }

  lemma OtherWrites(s: State, t: nat, u: nat) returns (es: seq<Event>)
    requires t < |s.threads| && u < |s.threads| && t != u
    requires s.threads[t].pc.CheckRange? && s.threads[u].pc.CheckRange? && s.safe == {}
    requires Lba(s.threads[t]) == Lba(s.threads[u]) && Lba(s.threads[t]) !in s.media
    requires Lba(s.threads[t]) !in s.foreign
    ensures LegalRun(s, es)
    ensures var s', lba := After(s, es), Lba(s.threads[t]);
            |s'.threads| == |s.threads| && s'.threads[t] == s.threads[t].(pc := Inserting(false), seen := Empty)
            && s'.safe == {} && s'.media == s.media[lba := s.threads[u].key]
  {
    var a := RunMore(s, [], Quiet(t));
    var b := RunMore(s, a, Quiet(u));
    var c := RunMore(s, b, Quiet(u));
    var d := RunMore(s, c, Quiet(u));
    es := RunMore(s, d, Quiet(u));
  }

  /** A thread at an address that is free stores its pair there and releases it. */
  lemma StoreAt(s: State, t: nat) returns (es: seq<Event>)
    requires t < |s.threads| && s.threads[t].pc.CheckRange? && s.safe == {}
    requires Lba(s.threads[t]) !in s.media && Lba(s.threads[t]) !in s.foreign
    ensures LegalRun(s, es)
    ensures var s', th := After(s, es), s.threads[t];
            s' == s.(threads := s'.threads, media := s.media[Lba(th) := th.key])
            && |s'.threads| == |s.threads|
            && forall v :: 0 <= v < |s.threads| && v != t ==> s'.threads[v] == s.threads[v]
  {
    var a := RunMore(s, [], Quiet(t));
    var b := RunMore(s, a, Quiet(t));
    var c := RunMore(s, b, Quiet(t));
    es := RunMore(s, c, Quiet(t));
    assert {Lba(s.threads[t])} - {Lba(s.threads[t])} == {};
  }

  /** Only some of the calls have moved. */
  predicate Untouched(s: State, s': State, calls: seq<nat>) {
    |s'.threads| == |s.threads| && forall v :: 0 <= v < |s.threads| && v !in calls ==> s'.threads[v] == s.threads[v]
  }

  /** One more call runs alone. */
  lemma RunAlone(s: State, t: nat) returns (es: seq<Event>)
    requires t < |s.threads| && AtStart(s.threads[t]) && s.safe == {}
    ensures LegalRun(s, es) && After(s, es) == Alone(s, t).(threads := After(s, es).threads)
    ensures Untouched(s, After(s, es), [t])
  {
    var th := s.threads[t];
    var i := FirstOpen(s, th, 0);
    if Takes(s, th, i) {
      var walk, th' := Walk(s, t, i);
      var more := StoreAt(After(s, walk), t);
      RunAppend(s, walk, more);
      es := walk + more;
    } else {
      es := [];
    }
  }

  lemma {:induction false} RunSerially(s: State, calls: seq<nat>) returns (es: seq<Event>)
    requires Initial(s) && Others(s, calls, |s.threads|, |s.threads|)
    ensures LegalRun(s, es) && After(s, es) == Serial(s, calls).(threads := After(s, es).threads)
    ensures Untouched(s, After(s, es), calls)
    decreases |calls|
  {
    if calls == [] {
      es := [];
    } else {
      var rest, c := calls[..|calls| - 1], calls[|calls| - 1];
      var before := RunSerially(s, rest);
      assert c !in rest && AtStart(s.threads[c]);
      assert rest + [c] == calls;
      var s1 := After(s, before);
      AloneAgrees(s1, Serial(s, rest), c);
      var more := RunAlone(s1, c);
      RunAppend(s, before, more);
      es := before + more;
    }
  }

  lemma AloneAgrees(s: State, s': State, t: nat)
    requires s.media == s'.media && s.foreign == s'.foreign
    requires t < |s.threads| == |s'.threads| && s.threads[t] == s'.threads[t]
    ensures Alone(s, t).media == Alone(s', t).media
  {
    SameOpen(s, s', s.threads[t], s.threads[t], 0);
  }

  lemma ContentionLoses(s: State, calls: seq<nat>, t: nat, u: nat) returns (es: seq<Event>)
    requires Initial(s) && DistinctKeys(s) && Contend(s, calls, t, u)
    ensures Loses(s, es, t)
  {
    var end := Serial(s, calls);
    var i: nat, j: nat :| Takes(end, s.threads[t], i) && Takes(end, s.threads[u], j)
                          && s.threads[t].probes[i] == s.threads[u].probes[j];
    var first := RunSerially(s, calls);
    var s1 := After(s, first);
    assert AtStart(s.threads[t]) && AtStart(s.threads[u]);
    assert s1.threads[t] == s.threads[t] && s1.threads[u] == s.threads[u];
    SameOpen(s1, end, s.threads[t], s.threads[t], 0);
    SameOpen(s1, end, s.threads[u], s.threads[u], 0);
    var last := MeetLoses(s1, t, u, i, j);
    RunAppend(s, first, last);
    es := first + last;
  }

  lemma MeetLoses(s: State, t: nat, u: nat, i: nat, j: nat) returns (es: seq<Event>)
    requires t < |s.threads| && u < |s.threads| && s.threads[t].key != s.threads[u].key && s.safe == {}
    requires AtStart(s.threads[t]) && AtStart(s.threads[u])
    requires Takes(s, s.threads[t], i) && Takes(s, s.threads[u], j) && s.threads[t].probes[i] == s.threads[u].probes[j]
    ensures Loses(s, es, t)
  {
    var es1, th := Walk(s, t, i);
    var s1 := After(s, es1);
    forall k | 0 <= k < j ensures Blocked(s1, s1.threads[u], k) {
      assert Blocked(s, s.threads[u], k);
    }
    var es2, th' := Walk(s1, u, j);
    var es3 := RaceAt(After(s1, es2), t, u);
    RunAppend(s1, es2, es3);
    RunAppend(s, es1, es2 + es3);
    es := es1 + (es2 + es3);
  }

  /** Seen from the calls alone: some interleaving of puts of different keys makes one write over
      another's pair exactly when some of the calls, run one after another, leave two others
      that would store their pairs at the same address. */
  lemma RaceIff(s: State)
    requires Initial(s) && DistinctKeys(s)
    ensures CanLosePair(s) <==> Contended(s)
  {
    if Contended(s) {
      var calls, t: nat, u: nat :| Contend(s, calls, t, u);
      var es := ContentionLoses(s, calls, t, u);
    }
    if CanLosePair(s) && !Contended(s) {
      var es, t: nat :| Loses(s, es, t);
      var calls := UncontendedIsSerial(s, es);
    }
  }

  /** Two calls alone: they must meet at the start. */
  lemma TwoCallsRaceIff(s: State)
    requires Initial(s) && DistinctKeys(s) && |s.threads| == 2
    ensures CanLosePair(s) <==> MeetAt(s, s.threads[0], s.threads[1])
  {
    RaceIff(s);
    if Contended(s) {
      var calls, t: nat, u: nat :| Contend(s, calls, t, u);
      assert calls == [];
    }
    if MeetAt(s, s.threads[0], s.threads[1]) {
      assert Contend(s, [], 0, 1);
    }
  }

  /** On empty media that is to have the same first address; sharing later ones does not count. */
  lemma EmptyMediaRaceIff(a: Thread, b: Thread)
    requires AtStart(a) && AtStart(b) && a.key != b.key
    ensures CanLosePair(State([a, b], {}, map[], {})) <==> a.probes[0] == b.probes[0]
  {
    var s := State([a, b], {}, map[], {});
    TwoCallsRaceIff(s);
    assert !Blocked(s, a, 0) && !Blocked(s, b, 0);
    assert a.probes[0] == b.probes[0] ==> Takes(s, a, 0) && Takes(s, b, 0);
  }

  /** Two puts with one first address. */
  function Pair(a: Thread, b: Thread, safe: set<nat>, media: map<nat, nat>): State {
    State([a, b], safe, media, {})
  }

  /** Both look, then the second writes and leaves. */
  lemma SecondOvertakes(a: Thread, b: Thread, lba: nat) returns (es: seq<Event>)
    requires a == Fresh(a.key, a.probes) && b == Fresh(b.key, b.probes) && Lba(a) == Lba(b) == lba
    ensures es == [Quiet(0), Quiet(1), Quiet(1), Quiet(1), Quiet(1)] && LegalRun(Pair(a, b, {}, map[]), es)
    ensures After(Pair(a, b, {}, map[]), es)
            == Pair(a.(pc := Inserting(false)), b.(pc := Finished, result := Stored), {}, map[lba := b.key])
  {
    var s := Pair(a, b, {}, map[]);
    es := RunMore(s, [], Quiet(0));
    es := RunMore(s, es, Quiet(1));
    es := RunMore(s, es, Quiet(1));
    es := RunMore(s, es, Quiet(1));
    es := RunMore(s, es, Quiet(1));
  }

  /** The first locks without a wait, writes and leaves. */
  lemma FirstFinishes(a: Thread, b: Thread, lba: nat) returns (es: seq<Event>)
    requires a == Fresh(a.key, a.probes).(pc := Inserting(false)) && Lba(a) == lba
    ensures var s := Pair(a, b, {}, map[lba := b.key]);
            es == [Quiet(0), Quiet(0), Quiet(0)] && LegalRun(s, es)
            && |After(s, es).threads| == 2 && After(s, es).threads[1] == b
            && After(s, es).threads[0].pc == Finished && After(s, es).threads[0].result == Stored
            && After(s, es).media == map[lba := a.key]
  {
    var s := Pair(a, b, {}, map[lba := b.key]);
    es := RunMore(s, [], Quiet(0));
    es := RunMore(s, es, Quiet(0));
    es := RunMore(s, es, Quiet(0));
  }

  /** It does happen: two puts of different keys find the same address empty; the second
      writes and leaves before the first asks for the lock. Both report success, and the pair
      of the second is gone. */
  lemma RaceLosesPair(key0: nat, key1: nat, probes0: seq<nat>, probes1: seq<nat>)
    requires |probes0| == |probes1| == PROBES && probes0[0] == probes1[0] && key0 != key1
    ensures var s := State([Fresh(key0, probes0), Fresh(key1, probes1)], {}, map[], {});
            var es := [Quiet(0), Quiet(1), Quiet(1), Quiet(1), Quiet(1), Quiet(0), Quiet(0), Quiet(0)];
            Initial(s) && LegalRun(s, es) && After(s, es).media == map[probes0[0] := key0]
            && (forall t :: 0 <= t < |After(s, es).threads| ==>
                  After(s, es).threads[t].pc == Finished && After(s, es).threads[t].result == Stored)
  {
    var a, b, lba := Fresh(key0, probes0), Fresh(key1, probes1), probes0[0];
    var first := SecondOvertakes(a, b, lba);
    var b' := b.(pc := Finished, result := Stored);
    var last := FirstFinishes(a.(pc := Inserting(false)), b', lba);
    var s := Pair(a, b, {}, map[]);
    RunAppend(s, first, last);
    assert first + last == [Quiet(0), Quiet(1), Quiet(1), Quiet(1), Quiet(1), Quiet(0), Quiet(0), Quiet(0)];
    assert After(s, first + last).threads[1] == b';
  }
}
