/** What concurrent puts report, and why they write (src/kv_store_mgr.cpp, kv_gen_lba and
    kv_put): each result of each thread of a run, traced to the steps that brought it about. */
module PutResults {
  import opened PutLocks
  import opened PutRaces

  /** The state in which the n-th event of a run happens. */
  function StateAt(s: State, es: seq<Event>, n: nat): (v: State)
    requires LegalRun(s, es) && n <= |es|
    ensures n < |es| ==> Legal(v, es[n])
    ensures n == |es| ==> v == After(s, es)
    decreases n
  {
    if n == 0 then s else StateAt(Next(s, es[0]), es[1..], n - 1)
  }

  lemma {:induction false} StateAfter(s: State, es: seq<Event>, n: nat)
    requires LegalRun(s, es) && n < |es|
    ensures StateAt(s, es, n + 1) == Next(StateAt(s, es, n), es[n])
    decreases n
  {
    if n > 0 {
      StateAfter(Next(s, es[0]), es[1..], n - 1);
    }
  }

  // ---- What a thread does in one step ------------------------------------------------------

  /** A read or a query here is one that does not fail. */
  datatype Deed =
    | FindsOwn             // it reads an unexpired pair of its own key
    | FindsExpired         // it reads an expired one
    | FindsOther(j: nat)   // at its j-th address it reads something else
    | FindsRoom            // a range query tells it that its window is not mapped
    | Faults               // its range query, read or write fails
    | Writes               // it writes its pair

  predicate Does(s: State, e: Event, t: nat, d: Deed) {
    e.t == t < |s.threads|
    && var th := s.threads[t];
       var own := Content(s, Lba(th)) == Holds(th.key);
       match d
       case FindsOwn => th.pc.Reading? && !e.env.fault && own && !e.env.expired
       case FindsExpired => th.pc.Reading? && !e.env.fault && own && e.env.expired
       case FindsOther(j) => th.pc.Reading? && !e.env.fault && !own && th.i == j
       case FindsRoom => th.pc.CheckRange? && !e.env.fault && !WindowMapped(s, Lba(th))
       case Faults => e.env.fault && (th.pc.CheckRange? || th.pc.Reading? || th.pc.Writing?)
       case Writes => th.pc.Writing? && !e.env.fault
  }

  /** Among the first n steps of the run there is one in which the thread does so. */
  ghost predicate Did(s: State, es: seq<Event>, n: nat, t: nat, d: Deed)
    requires LegalRun(s, es) && n <= |es|
  {
    exists m: nat :: m < n && Does(StateAt(s, es, m), es[m], t, d)
  }

  lemma DidOneMore(s: State, es: seq<Event>, n: nat, t: nat, d: Deed)
    requires LegalRun(s, es) && n < |es|
    ensures Did(s, es, n + 1, t, d) <==> Did(s, es, n, t, d) || Does(StateAt(s, es, n), es[n], t, d)
  {
    if Did(s, es, n + 1, t, d) {
      var m: nat :| m < n + 1 && Does(StateAt(s, es, m), es[m], t, d);
      assert m < n || m == n;
    }
  }

  // ---- Results -----------------------------------------------------------------------------

  predicate Returned(th: Thread) {
    th.pc.Finishing? || th.pc.Finished?
  }

  /** A thread has a result from the step on that ends its search or its write; after eight
      addresses it is a failure. */
  predicate Settled(th: Thread) {
    (th.result == Pending <==> !Returned(th)) && (th.i == PROBES ==> th.result == Failed)
  }

  lemma {:induction false} RunSettles(s: State, es: seq<Event>, n: nat, t: nat)
    requires Initial(s) && LegalRun(s, es) && n <= |es| && t < |s.threads|
    ensures Inv(StateAt(s, es, n)) && |StateAt(s, es, n).threads| == |s.threads|
    ensures var th, th0 := StateAt(s, es, n).threads[t], s.threads[t];
            ThreadOk(th) && Settled(th) && th.key == th0.key && th.replace == th0.replace && th.probes == th0.probes
    decreases n
  {
    InitialInv(s);
    assert AtStart(s.threads[t]);
    if n > 0 {
      RunSettles(s, es, n - 1, t);
      StateAfter(s, es, n - 1);
      StepSettles(StateAt(s, es, n - 1), es[n - 1], t);
    }
  }

  lemma StepSettles(s: State, e: Event, t: nat)
    requires Inv(s) && Legal(s, e) && t < |s.threads| && Settled(s.threads[t])
    ensures Inv(Next(s, e))
    ensures var th, th0 := Next(s, e).threads[t], s.threads[t];
            ThreadOk(th) && Settled(th) && th.key == th0.key && th.replace == th0.replace && th.probes == th0.probes
  {
    StepKeepsInv(s, e);
    assert ThreadOk(s.threads[t]) && ThreadOk(Next(s, e).threads[t]);
  }

  /** It is past its j-th address: its search has moved on from there or is about to. */
  predicate Past(th: Thread, j: nat) {
    j < th.i || (j == th.i && th.pc.Releasing?)
  }

  /** The moves of one step, seen from any thread. */
  lemma StepEarns(s: State, e: Event, t: nat, j: nat)
    requires Inv(s) && Legal(s, e) && t < |s.threads| && Settled(s.threads[t])
    ensures var th, th' := s.threads[t], Next(s, e).threads[t];
            && (th'.result == Exists <==> th.result == Exists || (!th.replace && Does(s, e, t, FindsOwn)))
            && (th'.result == Stored <==> th.result == Stored || Does(s, e, t, Writes))
            && (th'.result == Failed <==> th.result == Failed || Does(s, e, t, Faults) || th'.i == PROBES)
            && (Past(th', j) <==> Past(th, j) || Does(s, e, t, FindsOther(j)))
  {
    assert ThreadOk(s.threads[t]);
  }

  lemma {:induction false} Earned(s: State, es: seq<Event>, n: nat, t: nat, j: nat)
    requires Initial(s) && LegalRun(s, es) && n <= |es| && t < |s.threads|
    ensures |StateAt(s, es, n).threads| == |s.threads|
    ensures var th := StateAt(s, es, n).threads[t];
            && (th.result == Exists <==> !th.replace && Did(s, es, n, t, FindsOwn))
            && (th.result == Stored <==> Did(s, es, n, t, Writes))
            && (th.result == Failed <==> Did(s, es, n, t, Faults) || th.i == PROBES)
            && (Past(th, j) <==> Did(s, es, n, t, FindsOther(j)))
    decreases n
  {
    RunSettles(s, es, n, t);
    if n == 0 {
      assert AtStart(s.threads[t]);
    } else {
      Earned(s, es, n - 1, t, j);
      RunSettles(s, es, n - 1, t);
      StateAfter(s, es, n - 1);
      StepEarns(StateAt(s, es, n - 1), es[n - 1], t, j);
      DidOneMore(s, es, n - 1, t, FindsOwn);
      DidOneMore(s, es, n - 1, t, Writes);
      DidOneMore(s, es, n - 1, t, Faults);
      DidOneMore(s, es, n - 1, t, FindsOther(j));
    }
  }

  /** Where a run leaves a put. It is refused as existing exactly if it was not to replace and a
      read that did not fail has shown it an unexpired pair of its key; it reports a stored pair
      exactly if its write succeeded. Once it has returned, it has failed exactly if a device
      call of its own failed or reads at all eight addresses have shown it something else. */
  lemma ResultsAreEarned(s: State, es: seq<Event>, t: nat)
    requires Initial(s) && LegalRun(s, es) && t < |s.threads|
    ensures |After(s, es).threads| == |s.threads|
    ensures var th := After(s, es).threads[t];
            && (th.result == Exists <==> !s.threads[t].replace && Did(s, es, |es|, t, FindsOwn))
            && (th.result == Stored <==> Did(s, es, |es|, t, Writes))
            && (th.result == Pending <==> !Returned(th))
            && (Returned(th) ==>
                  (th.result == Failed <==>
                     || Did(s, es, |es|, t, Faults)
                     || forall j :: 0 <= j < PROBES ==> Did(s, es, |es|, t, FindsOther(j))))
  {
    RunSettles(s, es, |es|, t);
    var th := StateAt(s, es, |es|).threads[t];
    Earned(s, es, |es|, t, 7);
    forall j | 0 <= j < PROBES ensures Past(th, j) <==> Did(s, es, |es|, t, FindsOther(j)) {
      Earned(s, es, |es|, t, j);
    }
  }

  // ---- Why a put writes --------------------------------------------------------------------

  /** Its last query or read of the first n steps. */
  ghost predicate LastLook(s: State, es: seq<Event>, n: nat, t: nat, m: nat)
    requires LegalRun(s, es) && n <= |es|
  {
    m < n && Looks(StateAt(s, es, m), es[m], t)
    && forall k: nat :: m < k < n ==> !Looks(StateAt(s, es, k), es[k], t)
  }

  predicate Looks(s: State, e: Event, t: nat) {
    e.t == t < |s.threads| && (s.threads[t].pc.CheckRange? || s.threads[t].pc.Reading?)
  }

  /** A look after which it goes for its lock or writes. */
  predicate Decides(s: State, e: Event, t: nat) {
    || Does(s, e, t, FindsRoom) || Does(s, e, t, FindsExpired)
    || (Does(s, e, t, FindsOwn) && s.threads[t].replace)
  }

  ghost predicate DecidedAt(s: State, es: seq<Event>, n: nat, t: nat, m: nat)
    requires LegalRun(s, es) && n <= |es|
  {
    LastLook(s, es, n, t, m) && t < |StateAt(s, es, n).threads|
    && Decides(StateAt(s, es, m), es[m], t)
    && Lba(StateAt(s, es, m).threads[t]) == Lba(StateAt(s, es, n).threads[t])
    && (StateAt(s, es, n).threads[t].seen == Empty <==> Does(StateAt(s, es, m), es[m], t, FindsRoom))
  }

  predicate Committed(th: Thread) {
    th.pc.Inserting? || th.pc.Writing?
  }

  lemma StepCommits(s: State, e: Event, t: nat)
    requires Inv(s) && Legal(s, e) && t < |s.threads| && Committed(Next(s, e).threads[t])
    ensures Lba(Next(s, e).threads[t]) == Lba(s.threads[t])
    ensures if Looks(s, e, t)
            then Decides(s, e, t) && (Next(s, e).threads[t].seen == Empty <==> Does(s, e, t, FindsRoom))
            else Committed(s.threads[t]) && Next(s, e).threads[t].seen == s.threads[t].seen
  {
    assert ThreadOk(s.threads[t]);
  }

  lemma {:induction false} DecisionStands(s: State, es: seq<Event>, n: nat, t: nat) returns (m: nat)
    requires Initial(s) && LegalRun(s, es) && n <= |es| && t < |s.threads| == |StateAt(s, es, n).threads|
    requires Committed(StateAt(s, es, n).threads[t])
    ensures DecidedAt(s, es, n, t, m)
    decreases n
  {
    assert AtStart(s.threads[t]);
    if n > 0 {
      RunSettles(s, es, n - 1, t);
      StateAfter(s, es, n - 1);
      if Looks(StateAt(s, es, n - 1), es[n - 1], t) {
        m := n - 1;
        LookDecides(s, es, m, t);
      } else {
        StepCommits(StateAt(s, es, n - 1), es[n - 1], t);
        m := DecisionStands(s, es, n - 1, t);
        DecisionStays(s, es, n - 1, t, m);
      }
    }
  }

  lemma LookDecides(s: State, es: seq<Event>, n: nat, t: nat)
    requires LegalRun(s, es) && n < |es| && Inv(StateAt(s, es, n)) && t < |StateAt(s, es, n).threads|
    requires StateAt(s, es, n + 1) == Next(StateAt(s, es, n), es[n]) && Committed(StateAt(s, es, n + 1).threads[t])
    requires Looks(StateAt(s, es, n), es[n], t)
    ensures DecidedAt(s, es, n + 1, t, n)
  {
    StepCommits(StateAt(s, es, n), es[n], t);
  }

  lemma DecisionStays(s: State, es: seq<Event>, n: nat, t: nat, m: nat)
    requires LegalRun(s, es) && n < |es| && Inv(StateAt(s, es, n)) && DecidedAt(s, es, n, t, m)
    requires StateAt(s, es, n + 1) == Next(StateAt(s, es, n), es[n]) && Committed(StateAt(s, es, n + 1).threads[t])
    requires !Looks(StateAt(s, es, n), es[n], t)
    ensures DecidedAt(s, es, n + 1, t, m)
  {
    StepCommits(StateAt(s, es, n), es[n], t);
    LookStaysLast(s, es, n, t, m);
  }

  lemma LookStaysLast(s: State, es: seq<Event>, n: nat, t: nat, m: nat)
    requires LegalRun(s, es) && n < |es| && LastLook(s, es, n, t, m) && !Looks(StateAt(s, es, n), es[n], t)
    ensures LastLook(s, es, n + 1, t, m)
  {
    forall k: nat | m < k < n + 1 ensures !Looks(StateAt(s, es, k), es[k], t) {
      assert k < n || k == n;
    }
  }

  /** Another put has stored a pair of this key at this address between two steps of the run. */
  ghost predicate StoredBetween(s: State, es: seq<Event>, from: nat, n: nat, t: nat, lba: nat, key: nat)
    requires LegalRun(s, es) && n <= |es|
  {
    exists m: nat :: from < m < n && es[m].t != t && StoresAt(StateAt(s, es, m), es[m], lba, key)
  }

  predicate StoresAt(s: State, e: Event, lba: nat, key: nat) {
    Does(s, e, e.t, Writes) && Lba(s.threads[e.t]) == lba && s.threads[e.t].key == key
  }

  /** What is at an address now and was not before was stored since. */
  lemma {:induction false} StoredSince(s: State, es: seq<Event>, from: nat, n: nat, lba: nat, key: nat)
    returns (m: nat)
    requires LegalRun(s, es) && from <= n <= |es|
    requires Content(StateAt(s, es, from), lba) == Empty && Content(StateAt(s, es, n), lba) == Holds(key)
    ensures from <= m < n && StoresAt(StateAt(s, es, m), es[m], lba, key)
    decreases n
  {
    StateAfter(s, es, n - 1);
    if StoresAt(StateAt(s, es, n - 1), es[n - 1], lba, key) {
      m := n - 1;
    } else {
      m := StoredSince(s, es, from, n - 1, lba, key);
    }
  }

  /** A put that has written is done. */
  lemma {:induction false} WritesOnce(s: State, es: seq<Event>, m: nat, n: nat, t: nat)
    requires Initial(s) && LegalRun(s, es) && m < n <= |es| && t < |s.threads| == |StateAt(s, es, n).threads|
    requires Does(StateAt(s, es, m), es[m], t, Writes)
    ensures Returned(StateAt(s, es, n).threads[t])
    decreases n
  {
    RunSettles(s, es, n - 1, t);
    StateAfter(s, es, n - 1);
    if m < n - 1 {
      WritesOnce(s, es, m, n - 1, t);
    }
  }

  /** A put about to write over a pair of its own key: what it last saw at the address was such
      a pair, which had expired or which it was asked to replace; or nothing, and then another
      put of the same key has stored the pair there since. */
  lemma OverwriterHadReason(s: State, es: seq<Event>, t: nat) returns (m: nat)
    requires Initial(s) && LegalRun(s, es) && t < |s.threads| == |After(s, es).threads|
    requires OverwritesOwn(After(s, es), t)
    ensures LastLook(s, es, |es|, t, m)
    ensures var v, e, lba := StateAt(s, es, m), es[m], Lba(After(s, es).threads[t]);
            t < |v.threads| && Lba(v.threads[t]) == lba
            && ((Does(v, e, t, FindsOwn) && s.threads[t].replace)
                || Does(v, e, t, FindsExpired)
                || (Does(v, e, t, FindsRoom) && StoredBetween(s, es, m, |es|, t, lba, s.threads[t].key)))
  {
    m := DecisionStands(s, es, |es|, t);
    RunSettles(s, es, m, t);
    RunSettles(s, es, |es|, t);
    var v, e, lba := StateAt(s, es, m), es[m], Lba(After(s, es).threads[t]);
    if Does(v, e, t, FindsRoom) {
      var k := StoredSince(s, es, m, |es|, lba, s.threads[t].key);
      RunSettles(s, es, k, t);
      if es[k].t == t {
        WritesOnce(s, es, k, |es|, t);
      }
      assert k != m;
    }
  }

  predicate OverwritesOwn(s: State, t: nat)
    requires t < |s.threads|
  {
    s.threads[t].pc.Writing? && Content(s, Lba(s.threads[t])) == Holds(s.threads[t].key)
  }

  // ---- A put that replaces unasked ---------------------------------------------------------

  /** A put without replace is about to write over a pair of its key that its last look did not
      show it as expired. */
  ghost predicate Unasked(s: State, es: seq<Event>, t: nat) {
    LegalRun(s, es) && t < |s.threads| == |After(s, es).threads|
    && OverwritesOwn(After(s, es), t) && !s.threads[t].replace
    && !exists m: nat :: LastLook(s, es, |es|, t, m) && Does(StateAt(s, es, m), es[m], t, FindsExpired)
  }

  /** Puts of one key try the same addresses. */
  predicate PlacedByKey(s: State) {
    forall t, u :: 0 <= t < |s.threads| && 0 <= u < |s.threads| && s.threads[t].key == s.threads[u].key ==>
      s.threads[t].probes == s.threads[u].probes
  }

  predicate SameKey(s: State, t: nat, u: nat) {
    t < |s.threads| && u < |s.threads| && t != u && s.threads[t].key == s.threads[u].key
  }

  lemma {:induction false} SinceAt(s: State, es: seq<Event>, n: nat)
    requires Initial(s) && LegalRun(s, es) && n <= |es|
    ensures Inv(StateAt(s, es, n)) && Since(s, StateAt(s, es, n)) && StateAt(s, es, n).foreign == s.foreign
    decreases n
  {
    InitialInv(s);
    assert forall v :: 0 <= v < |s.threads| ==> AtStart(s.threads[v]);
    if n > 0 {
      SinceAt(s, es, n - 1);
      StateAfter(s, es, n - 1);
      StepKeepsInv(StateAt(s, es, n - 1), es[n - 1]);
      StepKeepsSince(s, StateAt(s, es, n - 1), es[n - 1]);
    }
  }

  /** Only a put whose key was not stored, and which had a free address, finds room. */
  lemma RoomWasThere(s: State, es: seq<Event>, m: nat, t: nat)
    requires Initial(s) && LegalRun(s, es) && m < |es| && t < |s.threads|
    requires Does(StateAt(s, es, m), es[m], t, FindsRoom)
    ensures Takes(s, s.threads[t], FirstOpen(s, s.threads[t], 0))
  {
    SinceAt(s, es, m);
    var th := StateAt(s, es, m).threads[t];
    assert AtStart(s.threads[t]);
    assert ThreadOk(th) && OnItsWay(s, s.threads[t], th);
    assert !Blocked(s, s.threads[t], th.i);
  }

  lemma UnaskedNeeds(s: State, es: seq<Event>, t: nat)
    requires Initial(s) && Unasked(s, es, t)
    ensures Takes(s, s.threads[t], FirstOpen(s, s.threads[t], 0)) && exists u: nat :: SameKey(s, t, u)
  {
    var m := OverwriterHadReason(s, es, t);
    RoomWasThere(s, es, m, t);
    var k: nat :| m < k < |es| && es[k].t != t
                  && StoresAt(StateAt(s, es, k), es[k], Lba(After(s, es).threads[t]), s.threads[t].key);
    RunSettles(s, es, k, t);
    RunSettles(s, es, k, es[k].t);
    assert SameKey(s, t, es[k].t);
  }

  /** Both look, the other stores and leaves, and the put locks the address without a wait. */
  lemma UnaskedIsReached(s: State, t: nat, u: nat) returns (es: seq<Event>)
    requires Initial(s) && PlacedByKey(s) && SameKey(s, t, u) && !s.threads[t].replace
    requires Takes(s, s.threads[t], FirstOpen(s, s.threads[t], 0))
    ensures Unasked(s, es, t)
  {
    var i := FirstOpen(s, s.threads[t], 0);
    assert AtStart(s.threads[t]) && AtStart(s.threads[u]);
    var es1, th := Walk(s, t, i);
    var s1 := After(s, es1);
    forall k | 0 <= k < i ensures Blocked(s1, s1.threads[u], k) {
      assert Blocked(s, s.threads[t], k);
    }
    var es2, th' := Walk(s1, u, i);
    var s2 := After(s1, es2);
    var es3 := OtherWrites(s2, t, u);
    var es4 := RunMore(s2, es3, Quiet(t));
    RunAppend(s1, es2, es4);
    RunAppend(s, es1, es2 + es4);
    es := es1 + (es2 + es4);
    SawRoom(s, es, t);
  }

  lemma SawRoom(s: State, es: seq<Event>, t: nat)
    requires Initial(s) && LegalRun(s, es) && t < |s.threads| == |After(s, es).threads|
    requires OverwritesOwn(After(s, es), t) && !s.threads[t].replace && After(s, es).threads[t].seen == Empty
    ensures Unasked(s, es, t)
  {
    var m := DecisionStands(s, es, |es|, t);
    forall k: nat | LastLook(s, es, |es|, t, k) ensures k == m {
    }
  }

  /** Whether some interleaving makes a put replace a pair unasked can be told from the calls: the
      put is not to replace, its key is not stored while one of its addresses is free, and
      another put of the same key is under way. */
  lemma UnaskedIff(s: State, t: nat)
    requires Initial(s) && PlacedByKey(s) && t < |s.threads|
    ensures (exists es :: Unasked(s, es, t)) <==>
            && !s.threads[t].replace && Takes(s, s.threads[t], FirstOpen(s, s.threads[t], 0))
            && exists u: nat :: SameKey(s, t, u)
  {
    if es :| Unasked(s, es, t) {
      UnaskedNeeds(s, es, t);
    }
    if !s.threads[t].replace && Takes(s, s.threads[t], FirstOpen(s, s.threads[t], 0)) {
      if u: nat :| SameKey(s, t, u) {
        var es := UnaskedIsReached(s, t, u);
      }
    }
  }

  /** It does happen: two puts of one key, neither to replace, both report a stored pair. */
  lemma BothStore(key: nat, probes: seq<nat>)
    requires |probes| == PROBES
    ensures var s := State([Fresh(key, probes), Fresh(key, probes)], {}, map[], {});
            var es := [Quiet(0), Quiet(1), Quiet(1), Quiet(1), Quiet(1), Quiet(0), Quiet(0), Quiet(0)];
            Initial(s) && LegalRun(s, es)
            && (forall t :: 0 <= t < |After(s, es).threads| ==>
                  !s.threads[t].replace && After(s, es).threads[t].result == Stored)
  {
    var a, b, lba := Fresh(key, probes), Fresh(key, probes), probes[0];
    var first := SecondOvertakes(a, b, lba);
    var b' := b.(pc := Finished, result := Stored);
    var last := FirstFinishes(a.(pc := Inserting(false)), b', lba);
    var s := Pair(a, b, {}, map[]);
    RunAppend(s, first, last);
    assert first + last == [Quiet(0), Quiet(1), Quiet(1), Quiet(1), Quiet(1), Quiet(0), Quiet(0), Quiet(0)];
    assert After(s, first + last).threads[1] == b';
  }
}
