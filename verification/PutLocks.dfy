/** The per-LBA lock set (util/kv_sync_list.cpp) and concurrent kv_put without the cache
    (src/kv_store_mgr.cpp): any number of threads, interleaved step by step. */
module PutLocks {

  const PROBES := 8

  /** The safe list: a set of addresses changed under one mutex. */
  class SafeList {
    var entries: set<nat>

    constructor ()
      ensures entries == {}
    {
      entries := {};
    }

    /** One turn of insert_entry's loop: inserts unless the entry is there, in which case the
        caller has to wait for a broadcast and take another turn. */
    method TryInsert(entry: nat) returns (inserted: bool)
      modifies this
      ensures inserted <==> entry !in old(entries)
      ensures entries == old(entries) + {entry}
    {
      inserted := entry !in entries;
      if inserted {
        entries := entries + {entry};
      }
    }

    /** delete_entry: broadcasts exactly when something was deleted. */
    method DeleteEntry(entry: nat) returns (deleted: bool)
      modifies this
      ensures deleted <==> entry in old(entries)
      ensures entries == old(entries) - {entry}
    {
      deleted := entry in entries;
      if deleted {
        entries := entries - {entry};
      }
    }
  }

  // ---- Threads -------------------------------------------------------------------------

  /** What the first sector at an address shows. */
  datatype View = Empty | Holds(key: nat)

  datatype Pc =
    | CheckRange               // about to ask whether the window is mapped
    | Reading                  // about to read the first sector
    | Inserting(slept: bool)   // inside insert_entry
    | Releasing                // other key found under the lock
    | Writing                  // kv_gen_lba succeeded
    | Finishing                // at end_kv_put
    | Finished

  datatype Result = Pending | Stored | Exists | Failed

  /** A thread running kv_put. insertLba is the source's flag; waited, seen and atInsert record
      what happened to it: whether it slept for its lock, what it last saw at its address and
      what was there when it got the lock. */
  datatype Thread = Thread(key: nat, replace: bool, probes: seq<nat>, pc: Pc, i: nat, insertLba: bool,
                           waited: bool, seen: View, atInsert: View, result: Result)

  /** media: the key whose pair starts at each address. foreign: the addresses in whose window
      sectors of other pools are mapped. */
  datatype State = State(threads: seq<Thread>, safe: set<nat>, media: map<nat, nat>, foreign: set<nat>)

  /** The environment's part of a step: the range query's answer (which the media fix unless the
      call fails), whether a found pair has expired, whether the device call fails. */
  datatype Env = Env(found: bool, expired: bool, fault: bool)

  datatype Event = Event(t: nat, env: Env)

  /** key_hash_val. */
  function Lba(th: Thread): nat {
    if th.i < |th.probes| then th.probes[th.i] else 0
  }

  function Content(s: State, lba: nat): View {
    if lba in s.media then Holds(s.media[lba]) else Empty
  }

  /** The address does not serve: re-hash, or give up after the eighth. */
  function Rehash(th: Thread): Thread {
    if th.i + 1 < PROBES then th.(i := th.i + 1, pc := CheckRange)
    else th.(i := th.i + 1, pc := Finishing, result := Failed)
  }

  /** The decision after a read. */
  function AfterRead(th: Thread, v: View, env: Env): Thread {
    var seen := th.(seen := v);
    if env.fault then seen.(pc := Finishing, result := Failed)
    else if v == Holds(th.key) then
      if env.expired || th.replace then seen.(pc := if th.insertLba then Writing else Inserting(false))
      else seen.(pc := Finishing, result := Exists)
    else if th.insertLba then seen.(pc := Releasing)
    else Rehash(seen)
  }

  /** The lock is taken: write at once, or after a wait read again. */
  function AfterInsert(th: Thread, v: View): Thread
    requires th.pc.Inserting?
  {
    th.(insertLba := true, waited := th.pc.slept, atInsert := v, pc := if th.pc.slept then Reading else Writing)
  }

  /** A thread can step unless it is done or asleep on an address somebody holds. */
  predicate Enabled(s: State, t: nat)
    requires t < |s.threads|
  {
    var th := s.threads[t];
    !th.pc.Finished? && (th.pc == Inserting(true) ==> Lba(th) !in s.safe)
  }

  /** What the range query answers: some sector of the address's window is mapped. */
  predicate WindowMapped(s: State, lba: nat) {
    lba in s.media || lba in s.foreign
  }

  /** Legal events: the thread can step, and a range query tells what the media are. */
  predicate Legal(s: State, e: Event) {
    e.t < |s.threads| && Enabled(s, e.t)
    && (s.threads[e.t].pc.CheckRange? && !e.env.fault ==>
          (e.env.found <==> WindowMapped(s, Lba(s.threads[e.t]))))
  }

  function StepThread(s: State, e: Event): Thread
    requires Legal(s, e)
  {
    var th, lba := s.threads[e.t], Lba(s.threads[e.t]);
    match th.pc
    case CheckRange =>
      if e.env.fault then th.(pc := Finishing, result := Failed)
      else if e.env.found then th.(pc := Reading)
      else th.(pc := Inserting(false), seen := Empty)
    case Reading => AfterRead(th, Content(s, lba), e.env)
    case Inserting(_) => if lba in s.safe then th.(pc := Inserting(true)) else AfterInsert(th, Content(s, lba))
    case Releasing => Rehash(th.(insertLba := false))
    case Writing => th.(pc := Finishing, result := if e.env.fault then Failed else Stored)
    case Finishing => th.(pc := Finished, insertLba := false)
    case Finished => th
  }

  function StepSafe(s: State, e: Event): set<nat>
    requires Legal(s, e)
  {
    var th, lba := s.threads[e.t], Lba(s.threads[e.t]);
    match th.pc
    case Inserting(_) => s.safe + {lba}
    case Releasing => s.safe - {lba}
    case Finishing => if th.insertLba then s.safe - {lba} else s.safe
    case _ => s.safe
  }

  function StepMedia(s: State, e: Event): map<nat, nat>
    requires Legal(s, e)
  {
    var th := s.threads[e.t];
    if th.pc.Writing? && !e.env.fault then s.media[Lba(th) := th.key] else s.media
  }

  function Next(s: State, e: Event): State
    requires Legal(s, e)
  {
    State(s.threads[e.t := StepThread(s, e)], StepSafe(s, e), StepMedia(s, e), s.foreign)
  }

  predicate LegalRun(s: State, es: seq<Event>)
    decreases |es|
  {
    es == [] || (Legal(s, es[0]) && LegalRun(Next(s, es[0]), es[1..]))
  }

  function After(s: State, es: seq<Event>): State
    requires LegalRun(s, es)
    decreases |es|
  {
    if es == [] then s else After(Next(s, es[0]), es[1..])
  }

  /** Calls of kv_put about to begin, on any media. */
  predicate Initial(s: State) {
    s.safe == {} && forall t :: 0 <= t < |s.threads| ==> AtStart(s.threads[t])
  }

  predicate AtStart(th: Thread) {
    |th.probes| == PROBES && th.pc == CheckRange && th.i == 0 && !th.insertLba && th.result == Pending
  }

  // ---- The invariant -------------------------------------------------------------------

  predicate HoldsLock(s: State, t: nat, lba: nat) {
    t < |s.threads| && s.threads[t].insertLba && Lba(s.threads[t]) == lba
  }

  /** What a program counter says about the flag, the index and the result. */
  predicate ThreadOk(th: Thread) {
    && |th.probes| == PROBES && th.i <= PROBES
    && (th.insertLba ==> th.i < PROBES)
    && (th.i == PROBES ==> th.pc.Finishing? || th.pc.Finished?)
    && (th.pc.CheckRange? || th.pc.Inserting? || th.pc.Finished? ==> !th.insertLba)
    && (th.pc.Releasing? || th.pc.Writing? ==> th.insertLba)
    && (th.result == Stored ==> th.pc.Finished? || (th.pc.Finishing? && th.insertLba))
    && (th.result == Pending ==> !th.pc.Finishing? && !th.pc.Finished?)
    && (th.pc.Writing? && !th.waited ==> th.seen == Empty || th.seen == Holds(th.key))
    && (th.pc.Reading? && th.insertLba ==> th.waited)
    && (th.pc.Writing? && th.waited ==> th.seen == Holds(th.key))
    && (th.pc.Inserting? ==> th.seen == Empty || th.seen == Holds(th.key))
  }

  /** While a thread decides under its lock, its address shows what it showed when the lock was
      taken, and what the thread read there since. */
  predicate Undisturbed(s: State, th: Thread) {
    && (th.insertLba && (th.pc.Reading? || th.pc.Writing? || th.pc.Releasing?) ==> Content(s, Lba(th)) == th.atInsert)
    && (th.pc.Writing? && th.waited ==> th.seen == th.atInsert)
  }

  /** The safe list holds exactly the addresses of the threads whose flag is set, and no two
      of those threads the same address. */
  ghost predicate LocksMatch(s: State) {
    && (forall lba: nat :: lba in s.safe ==> exists t: nat :: HoldsLock(s, t, lba))
    && (forall t: nat, lba: nat :: HoldsLock(s, t, lba) ==> lba in s.safe)
    && (forall t: nat, u: nat, lba: nat :: HoldsLock(s, t, lba) && HoldsLock(s, u, lba) ==> t == u)
  }

  ghost predicate Inv(s: State) {
    && (forall t :: 0 <= t < |s.threads| ==> ThreadOk(s.threads[t]) && Undisturbed(s, s.threads[t]))
    && LocksMatch(s)
  }

  lemma InitialInv(s: State)
    requires Initial(s)
    ensures Inv(s)
  {
    forall t | 0 <= t < |s.threads| ensures ThreadOk(s.threads[t]) && Undisturbed(s, s.threads[t]) {
      assert AtStart(s.threads[t]);
    }
    assert forall t: nat :: t < |s.threads| ==> AtStart(s.threads[t]);
    assert forall t: nat, lba: nat :: !HoldsLock(s, t, lba);
  }

  lemma StepKeepsThreadOk(s: State, e: Event)
    requires Inv(s) && Legal(s, e)
    ensures ThreadOk(StepThread(s, e))
  {
    assert ThreadOk(s.threads[e.t]);
    assert Undisturbed(s, s.threads[e.t]);
  }

  /** The stepping thread gains or loses exactly what the safe list gains or loses. */
  predicate LockChange(th: Thread, th': Thread, safe: set<nat>, safe': set<nat>) {
    || (th'.insertLba == th.insertLba && (th.insertLba ==> Lba(th') == Lba(th)) && safe' == safe)
    || (!th.insertLba && th'.insertLba && Lba(th') !in safe && safe' == safe + {Lba(th')})
    || (th.insertLba && !th'.insertLba && safe' == safe - {Lba(th)})
  }

  lemma StepChangesLock(s: State, e: Event)
    requires Inv(s) && Legal(s, e)
    ensures LockChange(s.threads[e.t], StepThread(s, e), s.safe, StepSafe(s, e))
  {
    assert ThreadOk(s.threads[e.t]);
  }

  lemma LockChangeKeepsMatch(s: State, s': State, k: nat)
    requires LocksMatch(s) && k < |s.threads| == |s'.threads|
    requires s'.threads == s.threads[k := s'.threads[k]] && LockChange(s.threads[k], s'.threads[k], s.safe, s'.safe)
    ensures LocksMatch(s')
  {
    var th, th' := s.threads[k], s'.threads[k];
    assert forall t: nat, lba: nat :: t != k ==> (HoldsLock(s', t, lba) <==> HoldsLock(s, t, lba));
    assert HoldsLock(s, k, Lba(th)) <==> th.insertLba;
    assert HoldsLock(s', k, Lba(th')) <==> th'.insertLba;
    forall lba: nat | lba in s'.safe ensures exists t: nat :: HoldsLock(s', t, lba) {
      if lba in s.safe {
        var t: nat :| HoldsLock(s, t, lba);
        assert HoldsLock(s', t, lba);
      }
    }
  }

  /** Only the holder of an address can change what is stored there. */
  lemma OthersLeaveAddressAlone(s: State, e: Event, t: nat)
    requires Inv(s) && Legal(s, e) && t < |s.threads| && t != e.t && s.threads[t].insertLba
    ensures Content(Next(s, e), Lba(s.threads[t])) == Content(s, Lba(s.threads[t]))
  {
    assert ThreadOk(s.threads[e.t]);
    assert HoldsLock(s, t, Lba(s.threads[t]));
    if Lba(s.threads[e.t]) == Lba(s.threads[t]) && s.threads[e.t].insertLba {
      assert HoldsLock(s, e.t, Lba(s.threads[t]));
    }
  }

  lemma StepKeepsUndisturbed(s: State, e: Event, t: nat)
    requires Inv(s) && Legal(s, e) && t < |s.threads|
    ensures Undisturbed(Next(s, e), Next(s, e).threads[t])
  {
    var s' := Next(s, e);
    assert ThreadOk(s.threads[t]) && Undisturbed(s, s.threads[t]);
    if t != e.t && s.threads[t].insertLba {
      OthersLeaveAddressAlone(s, e, t);
    }
  }

  lemma StepKeepsInv(s: State, e: Event)
    requires Inv(s) && Legal(s, e)
    ensures Inv(Next(s, e))
  {
    StepKeepsThreadOk(s, e);
    StepChangesLock(s, e);
    LockChangeKeepsMatch(s, Next(s, e), e.t);
    forall t | 0 <= t < |s.threads|
      ensures ThreadOk(Next(s, e).threads[t]) && Undisturbed(Next(s, e), Next(s, e).threads[t])
    {
      assert ThreadOk(s.threads[t]);
      StepKeepsUndisturbed(s, e, t);
    }
  }

  /** The invariant holds after every interleaving. */
  lemma {:induction false} RunKeepsInv(s: State, es: seq<Event>)
    requires Inv(s) && LegalRun(s, es)
    ensures Inv(After(s, es)) && |After(s, es).threads| == |s.threads|
    decreases |es|
  {
    if es != [] {
      StepKeepsInv(s, es[0]);
      RunKeepsInv(Next(s, es[0]), es[1..]);
    }
  }

  // ---- What it gives -------------------------------------------------------------------

  /** Mutual exclusion and the flag: in every reachable state the safe list is exactly the
      addresses of the threads whose insert_lba is set, no two of them the same, and whoever
      writes is one of them. */
  lemma LocksAreExclusive(s: State, es: seq<Event>)
    requires Initial(s) && LegalRun(s, es)
    ensures var s' := After(s, es);
            && (forall lba: nat :: lba in s'.safe <==> exists t: nat :: HoldsLock(s', t, lba))
            && (forall t: nat, u: nat, lba: nat :: HoldsLock(s', t, lba) && HoldsLock(s', u, lba) ==> t == u)
            && (forall t: nat :: t < |s'.threads| && s'.threads[t].pc.Writing? ==> HoldsLock(s', t, Lba(s'.threads[t])))
  {
    InitialInv(s);
    RunKeepsInv(s, es);
    assert forall t: nat :: t < |After(s, es).threads| ==> ThreadOk(After(s, es).threads[t]);
  }

  /** A step as the thread takes it, on the shared list itself. */
  method TakeStep(s: State, e: Event, list: SafeList) returns (s': State)
    requires Legal(s, e) && list.entries == s.safe
    modifies list
    ensures s' == Next(s, e) && list.entries == s'.safe
  {
    var th, lba := s.threads[e.t], Lba(s.threads[e.t]);
    var th';
    if th.pc.Inserting? {
      var inserted := list.TryInsert(lba);
      th' := if inserted then AfterInsert(th, Content(s, lba)) else th.(pc := Inserting(true));
    } else if th.pc.Releasing? {
      var _ := list.DeleteEntry(lba);
      th' := Rehash(th.(insertLba := false));
    } else if th.pc.Finishing? {
      if th.insertLba {
        var _ := list.DeleteEntry(lba);
      }
      th' := th.(pc := Finished, insertLba := false);
    } else {
      th' := StepThread(s, e);
    }
    s' := State(s.threads[e.t := th'], list.entries, StepMedia(s, e), s.foreign);
  }

  /** A put that had to wait reads again before it writes, and can only write over a pair of
      its own key. */
  lemma WaiterRereads(s: State, es: seq<Event>, t: nat)
    requires Initial(s) && LegalRun(s, es) && t < |s.threads|
    ensures var s' := After(s, es);
            |s'.threads| == |s.threads|
            && (s'.threads[t].pc.Writing? && s'.threads[t].waited ==>
                  s'.threads[t].seen == Holds(s'.threads[t].key) == Content(s', Lba(s'.threads[t])))
  {
    InitialInv(s);
    RunKeepsInv(s, es);
    var s' := After(s, es);
    assert ThreadOk(s'.threads[t]) && Undisturbed(s', s'.threads[t]);
  }

  // ---- Progress ------------------------------------------------------------------------

  /** No reachable state is deadlocked: a sleeper waits for a holder, and no holder sleeps. */
  lemma SomeoneCanStep(s: State, t: nat)
    requires Inv(s) && t < |s.threads| && !s.threads[t].pc.Finished?
    ensures exists u: nat :: u < |s.threads| && Enabled(s, u)
  {
    if !Enabled(s, t) {
      var u: nat :| HoldsLock(s, u, Lba(s.threads[t]));
      assert ThreadOk(s.threads[u]);
      assert Enabled(s, u);
    } else {
      assert Enabled(s, t);
    }
  }

  /** Steps a thread has left at most. */
  function Rank(th: Thread): nat {
    match th.pc
    case Finished => 0
    case Finishing => 1
    case Writing => 2
    case _ =>
      2 + (if th.i < PROBES then 6 * (PROBES - 1 - th.i) else 0)
      + (match th.pc
         case CheckRange => 6
         case Reading => if th.insertLba then 2 else 5
         case Inserting(slept) => if slept then 3 else 4
         case _ => 1)
  }

  const MAX_STEPS := 50

  lemma StepLowersRank(s: State, e: Event)
    requires Inv(s) && Legal(s, e)
    ensures Rank(StepThread(s, e)) < Rank(s.threads[e.t])
  {
    assert ThreadOk(s.threads[e.t]);
  }

  function TotalRank(ths: seq<Thread>): nat {
    if ths == [] then 0 else Rank(ths[0]) + TotalRank(ths[1..])
  }

  lemma {:induction false} UpdateRank(ths: seq<Thread>, t: nat, th: Thread)
    requires t < |ths|
    ensures TotalRank(ths[t := th]) == TotalRank(ths) - Rank(ths[t]) + Rank(th)
    decreases t
  {
    if t == 0 {
      assert ths[0 := th][1..] == ths[1..];
    } else {
      UpdateRank(ths[1..], t - 1, th);
      assert ths[t := th][1..] == ths[1..][t - 1 := th];
    }
  }

  lemma {:induction false} RunLowersRank(s: State, es: seq<Event>)
    requires Inv(s) && LegalRun(s, es)
    ensures |es| + TotalRank(After(s, es).threads) <= TotalRank(s.threads)
    decreases |es|
  {
    if es != [] {
      StepLowersRank(s, es[0]);
      UpdateRank(s.threads, es[0].t, StepThread(s, es[0]));
      StepKeepsInv(s, es[0]);
      RunLowersRank(Next(s, es[0]), es[1..]);
    }
  }

  lemma {:induction false} InitialRank(ths: seq<Thread>)
    requires forall t :: 0 <= t < |ths| ==> AtStart(ths[t])
    ensures TotalRank(ths) == MAX_STEPS * |ths|
    decreases |ths|
  {
    if ths != [] {
      assert AtStart(ths[0]);
      forall t | 0 <= t < |ths[1..]| ensures AtStart(ths[1..][t]) {
        assert AtStart(ths[t + 1]);
      }
      InitialRank(ths[1..]);
    }
  }

  /** Every interleaving of n puts ends within 50 n steps, re-reads included; where it cannot
      go on every put has returned, and every lock is released. */
  lemma RunsEndReleased(s: State, es: seq<Event>)
    requires Initial(s) && LegalRun(s, es)
    ensures |es| <= MAX_STEPS * |s.threads|
    ensures (forall u: nat :: u < |After(s, es).threads| ==> !Enabled(After(s, es), u)) ==>
              After(s, es).safe == {}
              && forall t :: 0 <= t < |After(s, es).threads| ==>
                   After(s, es).threads[t].pc.Finished? && After(s, es).threads[t].result != Pending
  {
    InitialInv(s);
    RunKeepsInv(s, es);
    RunLowersRank(s, es);
    InitialRank(s.threads);
    var s' := After(s, es);
    if forall u: nat :: u < |s'.threads| ==> !Enabled(s', u) {
      forall t | 0 <= t < |s'.threads| ensures ThreadOk(s'.threads[t]) && s'.threads[t].pc.Finished? {
        if !s'.threads[t].pc.Finished? { SomeoneCanStep(s', t); }
      }
      assert forall t: nat, lba: nat :: !HoldsLock(s', t, lba);
      assert forall lba: nat :: lba !in s'.safe;
    }
  }
}
