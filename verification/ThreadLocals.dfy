/** Thread-local values and their destructors, crypto/thread_pthread.cc.
  *
  * Threads run `CRYPTO_set_thread_local` and, when they end, the key's destructor
  * `thread_local_destructor`.  Every point where the code can fail is an event
  * choice: creating the key, malloc, pthread_setspecific and both mutex locks.  A run
  * is any sequence of events; an event that is not enabled leaves the state alone.
  */
module ThreadLocals {
  import opened Basics

  /** NUM_OPENSSL_THREAD_LOCALS */
  const N: nat := 5

  datatype Once = NotRun | KeyFailed | KeyCreated

  /** A value is named by the number of the call that handed it over. */
  datatype Pc =
    | Idle
    | SetLock(value: nat)
    | SetStore(value: nat)
    | SetUnlock(value: nat)
    | SetPointer(value: nat)
    | ExitLock
    | ExitCopy
    | ExitUnlock(copy: seq<Option<int>>)
    | ExitLoop(copy: seq<Option<int>>, i: nat)
    | Exited(skipped: bool)

  /** `pointers` is the array behind the pthread key. */
  datatype Thread = Thread(pc: Pc, pointers: Option<seq<Option<nat>>>)

  /** A call of `CRYPTO_set_thread_local`. */
  datatype Call = Call(thread: nat, index: nat, destructor: int)

  /** A destructor was run on a value, or on NULL. */
  datatype Destroyed = Destroyed(destructor: int, value: Option<nat>)

  /** `calls[v]` handed over value `v` and returned `results[v]`, unless it still runs. */
  datatype State = State(
    once: Once,
    lock: Option<nat>,
    destructors: seq<Option<int>>,
    threads: seq<Thread>,
    calls: seq<Call>,
    results: seq<Option<bool>>,
    log: seq<Destroyed>)

  datatype Event =
    | Set(t: nat, index: nat, destructor: int, keyOk: bool, mallocOk: bool, setspecificOk: bool)
    | Exit(t: nat)
    | Run(t: nat, lockOk: bool)

  predicate Initial(s: State) {
    && s.once == NotRun && s.lock == None
    && s.destructors == seq(N, i => None)
    && (forall t | 0 <= t < |s.threads| :: s.threads[t] == Thread(Idle, None))
    && s.calls == [] && s.results == [] && s.log == []
  }

  // ----- the program

  function Put(s: State, t: nat, th: Thread): State
    requires t < |s.threads|
  {
    s.(threads := s.threads[t := th])
  }

  /** The call starts and returns 0 at once, destroying the value it was given. */
  function Refuse(s: State, c: Call): State {
    s.(calls := s.calls + [c], results := s.results + [Some(false)],
       log := s.log + [Destroyed(c.destructor, Some(|s.calls|))])
  }

  function BeginSet(s: State, t: nat, c: Call, keyOk: bool, mallocOk: bool, setspecificOk: bool): State
    requires t < |s.threads|
  {
    var s1 := if s.once == NotRun then s.(once := if keyOk then KeyCreated else KeyFailed) else s;
    if s1.once == KeyFailed then Refuse(s1, c)
    else if s.threads[t].pointers == None && (!mallocOk || !setspecificOk) then Refuse(s1, c)
    else
      var slots := if s.threads[t].pointers == None then Some(seq(N, i => None)) else s.threads[t].pointers;
      Put(s1.(calls := s.calls + [c], results := s.results + [None]), t, Thread(SetLock(|s.calls|), slots))
  }

  function RunSet(s: State, t: nat, lockOk: bool): State
    requires t < |s.threads|
  {
    var th := s.threads[t];
    match th.pc
    case SetLock(v) =>
      if v >= |s.calls| || v >= |s.results| then s
      else if !lockOk then
        Put(s.(results := s.results[v := Some(false)],
               log := s.log + [Destroyed(s.calls[v].destructor, Some(v))]), t, th.(pc := Idle))
      else if s.lock == None then Put(s.(lock := Some(t)), t, th.(pc := SetStore(v)))
      else s
    case SetStore(v) =>
      if v >= |s.calls| || s.calls[v].index >= |s.destructors| then s
      else
        Put(s.(destructors := s.destructors[s.calls[v].index := Some(s.calls[v].destructor)]),
            t, th.(pc := SetUnlock(v)))
    case SetUnlock(v) => Put(s.(lock := None), t, th.(pc := SetPointer(v)))
    case SetPointer(v) =>
      if v >= |s.calls| || v >= |s.results| || th.pointers == None || s.calls[v].index >= |th.pointers.value| then s
      else
        Put(s.(results := s.results[v := Some(true)]), t,
            Thread(Idle, Some(th.pointers.value[s.calls[v].index := Some(v)])))
    case _ => s
  }

  function RunExit(s: State, t: nat, lockOk: bool): State
    requires t < |s.threads|
  {
    var th := s.threads[t];
    match th.pc
    case ExitLock =>
      if !lockOk then Put(s, t, th.(pc := Exited(true)))
      else if s.lock == None then Put(s.(lock := Some(t)), t, th.(pc := ExitCopy))
      else s
    case ExitCopy => Put(s, t, th.(pc := ExitUnlock(s.destructors)))
    case ExitUnlock(copy) => Put(s.(lock := None), t, th.(pc := ExitLoop(copy, 0)))
    case ExitLoop(copy, i) =>
      if i >= N then Put(s, t, Thread(Exited(false), None))
      else if i >= |copy| || th.pointers == None || i >= |th.pointers.value| then s
      else
        var s1 := if copy[i].Some? then s.(log := s.log + [Destroyed(copy[i].value, th.pointers.value[i])]) else s;
        Put(s1, t, th.(pc := ExitLoop(copy, i + 1)))
    case _ => s
  }

  function Step(s: State, ev: Event): State {
    if ev.t >= |s.threads| then s
    else
      match ev
      case Set(t, index, d, keyOk, mallocOk, setspecificOk) =>
        if s.threads[t].pc == Idle && index < N
        then BeginSet(s, t, Call(t, index, d), keyOk, mallocOk, setspecificOk) else s
      case Exit(t) =>
        // pthreads runs the key's destructor only for a non-NULL value.
        if s.threads[t].pc == Idle then
          Put(s, t, s.threads[t].(pc := if s.threads[t].pointers == None then Exited(false) else ExitLock))
        else s
      case Run(t, lockOk) =>
        if s.threads[t].pc.SetLock? || s.threads[t].pc.SetStore? || s.threads[t].pc.SetUnlock? || s.threads[t].pc.SetPointer?
        then RunSet(s, t, lockOk) else RunExit(s, t, lockOk)
  }

  function Exec(s: State, evs: seq<Event>): State
    decreases |evs|
  {
    if evs == [] then s else Step(Exec(s, evs[..|evs| - 1]), evs[|evs| - 1])
  }

  /** `CRYPTO_get_thread_local` */
  function Get(th: Thread, index: nat): Option<nat> {
    if th.pointers == None || index >= |th.pointers.value| then None else th.pointers.value[index]
  }

  // ----- what a run has done

  /** How often a destructor was run on the value. */
  function Count(log: seq<Destroyed>, v: nat): nat
    decreases |log|
  {
    if log == [] then 0
    else Count(log[..|log| - 1], v) + if log[|log| - 1].value == Some(v) then 1 else 0
  }

  /** The value of the last call by the thread for the index that returned 1. */
  function Latest(calls: seq<Call>, results: seq<Option<bool>>, t: nat, i: nat): Option<nat>
    requires |calls| == |results|
    decreases |calls|
  {
    if calls == [] then None
    else
      var n := |calls| - 1;
      if calls[n].thread == t && calls[n].index == i && results[n] == Some(true) then Some(n)
      else Latest(calls[..n], results[..n], t, i)
  }

  // ----- the invariant

  predicate InFlight(pc: Pc, v: nat) {
    (pc.SetLock? || pc.SetStore? || pc.SetUnlock? || pc.SetPointer?) && pc.value == v
  }

  predicate Swept(pc: Pc, i: nat) {
    (pc.ExitLoop? && i < pc.i) || pc == Exited(false)
  }

  predicate HoldsLock(pc: Pc) {
    pc.SetStore? || pc.SetUnlock? || pc.ExitCopy? || pc.ExitUnlock?
  }

  ghost predicate Shape(s: State) {
    && |s.results| == |s.calls| && |s.destructors| == N
    && (forall v | 0 <= v < |s.calls| :: s.calls[v].thread < |s.threads| && s.calls[v].index < N)
    && (forall v: nat | v >= |s.calls| :: Count(s.log, v) == 0)
  }

  ghost predicate LockInv(lock: Option<nat>, ts: seq<Thread>) {
    forall t | 0 <= t < |ts| :: HoldsLock(ts[t].pc) <==> lock == Some(t)
  }

  ghost predicate ValueInv(s: State, v: nat)
    requires Shape(s) && v < |s.calls|
  {
    var c := s.calls[v];
    match s.results[v]
    case None => Count(s.log, v) == 0 && InFlight(s.threads[c.thread].pc, v)
    case Some(false) => Count(s.log, v) == 1
    case Some(true) =>
      Count(s.log, v) ==
      if Latest(s.calls, s.results, c.thread, c.index) == Some(v) && Swept(s.threads[c.thread].pc, c.index) then 1 else 0
  }

  ghost predicate SlotInv(s: State, t: nat, i: nat)
    requires Shape(s) && t < |s.threads| && i < N
  {
    var th := s.threads[t];
    var latest := Latest(s.calls, s.results, t, i);
    && (!th.pc.Exited? ==> Get(th, i) == latest)
    && (latest.Some? ==> s.destructors[i].Some?)
    && (latest.Some? && (th.pc.ExitUnlock? || th.pc.ExitLoop?) ==> i < |th.pc.copy| && th.pc.copy[i].Some?)
  }

  ghost predicate ThreadInv(s: State, t: nat)
    requires Shape(s) && t < |s.threads|
  {
    var th := s.threads[t];
    && (th.pointers.Some? ==> |th.pointers.value| == N)
    && (th.pc.ExitUnlock? || th.pc.ExitLoop? ==> |th.pc.copy| == N)
    && (!th.pc.Idle? && !th.pc.Exited? ==> th.pointers.Some?)
    && (forall v: nat | InFlight(th.pc, v) ::
          && v < |s.calls| && s.calls[v].thread == t && s.results[v] == None
          && (forall w | v < w < |s.calls| :: s.calls[w].thread != t)
          && (th.pc.SetUnlock? || th.pc.SetPointer? ==> s.destructors[s.calls[v].index].Some?))
  }

  ghost predicate Inv(s: State) {
    && Shape(s)
    && LockInv(s.lock, s.threads)
    && (forall v: nat | v < |s.calls| :: ValueInv(s, v))
    && (forall t: nat, i: nat | t < |s.threads| && i < N :: SlotInv(s, t, i))
    && (forall t: nat | t < |s.threads| :: ThreadInv(s, t))
  }

  // ----- arithmetic of the two functions

  lemma CountSnoc(log: seq<Destroyed>, d: Destroyed, v: nat)
    ensures Count(log + [d], v) == Count(log, v) + if d.value == Some(v) then 1 else 0
  {
    assert (log + [d])[..|log|] == log;
  }

  lemma LatestSnoc(calls: seq<Call>, results: seq<Option<bool>>, c: Call, r: Option<bool>, t: nat, i: nat)
    requires |calls| == |results| && r != Some(true)
    ensures Latest(calls + [c], results + [r], t, i) == Latest(calls, results, t, i)
  {
    assert (calls + [c])[..|calls|] == calls;
    assert (results + [r])[..|results|] == results;
  }

  /** A call that returns 1 becomes the latest, if no later call is the thread's. */
  lemma {:induction false} LatestSet(calls: seq<Call>, results: seq<Option<bool>>, v: nat, r: bool, t: nat, i: nat)
    requires |calls| == |results| && v < |calls| && results[v] == None
    requires forall w | v < w < |calls| :: calls[w].thread != calls[v].thread
    ensures Latest(calls, results[v := Some(r)], t, i)
         == if r && calls[v].thread == t && calls[v].index == i then Some(v) else Latest(calls, results, t, i)
    decreases |calls|
  {
    var n := |calls| - 1;
    if v < n {
      LatestSet(calls[..n], results[..n], v, r, t, i);
      assert results[v := Some(r)][..n] == results[..n][v := Some(r)];
    } else {
      assert results[v := Some(r)][..n] == results[..n];
    }
  }

  lemma {:induction false} LatestIs(calls: seq<Call>, results: seq<Option<bool>>, t: nat, i: nat)
    requires |calls| == |results|
    ensures var l := Latest(calls, results, t, i);
            && (l.Some? ==>
                  && l.value < |calls| && calls[l.value].thread == t && calls[l.value].index == i
                  && results[l.value] == Some(true))
            && (forall w | 0 <= w < |calls| && calls[w].thread == t && calls[w].index == i && results[w] == Some(true) ::
                  l.Some? && w <= l.value)
    decreases |calls|
  {
    if calls != [] {
      var n := |calls| - 1;
      LatestIs(calls[..n], results[..n], t, i);
      forall w | 0 <= w < n && calls[w].thread == t && calls[w].index == i && results[w] == Some(true)
        ensures Latest(calls, results, t, i).Some? && w <= Latest(calls, results, t, i).value
      {
        assert calls[..n][w] == calls[w] && results[..n][w] == results[w];
      }
    }
  }

  // ----- preservation

  lemma RefuseInv(s: State, c: Call, once: Once)
    requires Inv(s) && c.thread < |s.threads| && c.index < N && s.threads[c.thread].pc == Idle
    ensures Inv(Refuse(s.(once := once), c))
  {
    var s' := Refuse(s.(once := once), c);
    forall v: nat ensures Count(s'.log, v) == Count(s.log, v) + if v == |s.calls| then 1 else 0 {
      CountSnoc(s.log, Destroyed(c.destructor, Some(|s.calls|)), v);
    }
    forall t: nat, i: nat
      ensures Latest(s'.calls, s'.results, t, i) == Latest(s.calls, s.results, t, i)
    {
      LatestSnoc(s.calls, s.results, c, Some(false), t, i);
    }
    hide Count, Latest;
    forall v: nat | v < |s'.calls| ensures ValueInv(s', v) {
      if v < |s.calls| { assert ValueInv(s, v); }
    }
    forall t: nat, i: nat | t < |s'.threads| && i < N ensures SlotInv(s', t, i) {
      assert SlotInv(s, t, i);
    }
    forall t: nat | t < |s'.threads| ensures ThreadInv(s', t) {
      assert ThreadInv(s, t);
    }
  }

  lemma BeginInv(s: State, c: Call, once: Once, slots: Option<seq<Option<nat>>>)
    requires Inv(s) && c.thread < |s.threads| && c.index < N && s.threads[c.thread].pc == Idle
    requires slots == if s.threads[c.thread].pointers == None then Some(seq(N, i => None)) else s.threads[c.thread].pointers
    ensures Inv(Put(s.(once := once, calls := s.calls + [c], results := s.results + [None]),
                    c.thread, Thread(SetLock(|s.calls|), slots)))
  {
    var s' := Put(s.(once := once, calls := s.calls + [c], results := s.results + [None]),
                  c.thread, Thread(SetLock(|s.calls|), slots));
    forall t: nat, i: nat
      ensures Latest(s'.calls, s'.results, t, i) == Latest(s.calls, s.results, t, i)
    {
      LatestSnoc(s.calls, s.results, c, None, t, i);
    }
    hide Count, Latest;
    forall v: nat | v < |s'.calls| ensures ValueInv(s', v) {
      if v < |s.calls| { assert ValueInv(s, v); }
    }
    forall t: nat, i: nat | t < |s'.threads| && i < N ensures SlotInv(s', t, i) {
      assert SlotInv(s, t, i);
    }
    forall t: nat | t < |s'.threads| ensures ThreadInv(s', t) {
      assert ThreadInv(s, t);
    }
  }

  /** A set that cannot take the mutex destroys the value and returns 0. */
  lemma LockFailsInv(s: State, t: nat)
    requires Inv(s) && t < |s.threads| && s.threads[t].pc.SetLock?
    ensures Inv(RunSet(s, t, false))
  {
    var s' := RunSet(s, t, false);
    assert ThreadInv(s, t);
    var v := s.threads[t].pc.value;
    assert InFlight(s.threads[t].pc, v);
    forall w: nat ensures Count(s'.log, w) == Count(s.log, w) + if w == v then 1 else 0 {
      CountSnoc(s.log, Destroyed(s.calls[v].destructor, Some(v)), w);
    }
    forall u: nat, i: nat
      ensures Latest(s'.calls, s'.results, u, i) == Latest(s.calls, s.results, u, i)
    {
      LatestSet(s.calls, s.results, v, false, u, i);
    }
    hide Count, Latest;
    forall w: nat | w < |s'.calls| ensures ValueInv(s', w) {
      assert ValueInv(s, w);
    }
    forall u: nat, i: nat | u < |s'.threads| && i < N ensures SlotInv(s', u, i) {
      assert SlotInv(s, u, i);
    }
    forall u: nat | u < |s'.threads| ensures ThreadInv(s', u) {
      assert ThreadInv(s, u);
    }
  }

  /** The last step of a successful set. */
  lemma PointerInv(s: State, t: nat)
    requires Inv(s) && t < |s.threads| && s.threads[t].pc.SetPointer?
    ensures Inv(RunSet(s, t, true))
  {
    var s' := RunSet(s, t, true);
    assert ThreadInv(s, t);
    var v := s.threads[t].pc.value;
    assert InFlight(s.threads[t].pc, v);
    forall u: nat, i: nat
      ensures Latest(s'.calls, s'.results, u, i)
           == if u == t && i == s.calls[v].index then Some(v) else Latest(s.calls, s.results, u, i)
    {
      LatestSet(s.calls, s.results, v, true, u, i);
    }
    hide Count, Latest;
    forall w: nat | w < |s'.calls| ensures ValueInv(s', w) {
      assert ValueInv(s, w);
    }
    forall u: nat, i: nat | u < |s'.threads| && i < N ensures SlotInv(s', u, i) {
      assert SlotInv(s, u, i);
    }
    forall u: nat | u < |s'.threads| ensures ThreadInv(s', u) {
      assert ThreadInv(s, u);
    }
  }

  lemma StoreInv(s: State, t: nat)
    requires Inv(s) && t < |s.threads| && s.threads[t].pc.SetStore?
    ensures Inv(RunSet(s, t, true))
  {
    var s' := RunSet(s, t, true);
    assert ThreadInv(s, t);
    assert InFlight(s.threads[t].pc, s.threads[t].pc.value);
    hide Count, Latest;
    forall w: nat | w < |s'.calls| ensures ValueInv(s', w) {
      assert ValueInv(s, w);
    }
    forall u: nat, i: nat | u < |s'.threads| && i < N ensures SlotInv(s', u, i) {
      assert SlotInv(s, u, i);
    }
    forall u: nat | u < |s'.threads| ensures ThreadInv(s', u) {
      assert ThreadInv(s, u);
    }
  }

  /** Steps that only move a thread along, taking or dropping the mutex. */
  lemma MoveInv(s: State, lock: Option<nat>, t: nat, pc: Pc)
    requires Inv(s) && t < |s.threads|
    requires var was := s.threads[t].pc;
             || (was.SetLock? && pc == SetStore(was.value) && s.lock == None)
             || (was.SetUnlock? && pc == SetPointer(was.value))
             || (was == Idle && pc == ExitLock && s.threads[t].pointers.Some?)
             || (was == ExitLock && pc == ExitCopy && s.lock == None)
             || (was == ExitCopy && pc == ExitUnlock(s.destructors))
             || (was.ExitUnlock? && pc == ExitLoop(was.copy, 0))
    requires lock == if HoldsLock(pc) then Some(t) else if HoldsLock(s.threads[t].pc) then None else s.lock
    ensures Inv(Put(s.(lock := lock), t, s.threads[t].(pc := pc)))
  {
    var s' := Put(s.(lock := lock), t, s.threads[t].(pc := pc));
    assert ThreadInv(s, t);
    hide Count, Latest;
    forall w: nat | w < |s'.calls| ensures ValueInv(s', w) {
      assert ValueInv(s, w);
    }
    forall u: nat, i: nat | u < |s'.threads| && i < N ensures SlotInv(s', u, i) {
      assert SlotInv(s, u, i);
    }
    forall u: nat | u < |s'.threads| ensures ThreadInv(s', u) {
      assert ThreadInv(s, u);
      assert forall w: nat :: InFlight(pc, w) <==> InFlight(s.threads[t].pc, w);
    }
  }

  /** A thread ends without running destructors: it has no array, or the mutex failed. */
  lemma SkipInv(s: State, t: nat, skipped: bool)
    requires Inv(s) && t < |s.threads|
    requires (s.threads[t].pc == Idle && s.threads[t].pointers == None && !skipped)
          || (s.threads[t].pc == ExitLock && skipped)
    ensures Inv(Put(s, t, s.threads[t].(pc := Exited(skipped))))
  {
    var s' := Put(s, t, s.threads[t].(pc := Exited(skipped)));
    hide Count, Latest;
    forall w: nat | w < |s'.calls| ensures ValueInv(s', w) {
      assert ValueInv(s, w);
      assert SlotInv(s, s.calls[w].thread, s.calls[w].index);
    }
    forall u: nat, i: nat | u < |s'.threads| && i < N ensures SlotInv(s', u, i) {
      assert SlotInv(s, u, i);
    }
    forall u: nat | u < |s'.threads| ensures ThreadInv(s', u) {
      assert ThreadInv(s, u);
    }
  }

  /** One turn of the loop destroys exactly the thread's current value at that index. */
  lemma SweepCount(s: State, t: nat, w: nat)
    requires Inv(s) && t < |s.threads| && s.threads[t].pc.ExitLoop? && s.threads[t].pc.i < N
    ensures var s' := RunExit(s, t, true);
            var pc := s.threads[t].pc;
            && s' == Put(s.(log := s'.log), t, s.threads[t].(pc := ExitLoop(pc.copy, pc.i + 1)))
            && Count(s'.log, w) == Count(s.log, w) + if Latest(s.calls, s.results, t, pc.i) == Some(w) then 1 else 0
  {
    var th := s.threads[t];
    assert ThreadInv(s, t);
    assert SlotInv(s, t, th.pc.i);
    hide Inv, Latest;
    CountSnoc(s.log, Destroyed(if th.pc.copy[th.pc.i].Some? then th.pc.copy[th.pc.i].value else 0,
                               th.pointers.value[th.pc.i]), w);
  }

  lemma SweepInv(s: State, t: nat)
    requires Inv(s) && t < |s.threads| && s.threads[t].pc.ExitLoop? && s.threads[t].pc.i < N
    ensures Inv(RunExit(s, t, true))
  {
    hide Count, Latest, RunExit;
    var s' := RunExit(s, t, true);
    SweepCount(s, t, 0);
    forall w: nat
      ensures Count(s'.log, w)
           == Count(s.log, w) + if Latest(s.calls, s.results, t, s.threads[t].pc.i) == Some(w) then 1 else 0
    {
      SweepCount(s, t, w);
    }
    LatestIs(s.calls, s.results, t, s.threads[t].pc.i);
    forall w: nat | w < |s'.calls| ensures ValueInv(s', w) {
      assert ValueInv(s, w);
    }
    forall u: nat, i: nat | u < |s'.threads| && i < N ensures SlotInv(s', u, i) {
      assert SlotInv(s, u, i);
    }
    forall u: nat | u < |s'.threads| ensures ThreadInv(s', u) {
      assert ThreadInv(s, u);
    }
  }

  lemma EndInv(s: State, t: nat)
    requires Inv(s) && t < |s.threads| && s.threads[t].pc.ExitLoop? && s.threads[t].pc.i >= N
    ensures Inv(Put(s, t, Thread(Exited(false), None)))
  {
    var s' := Put(s, t, Thread(Exited(false), None));
    hide Count, Latest;
    forall w: nat | w < |s'.calls| ensures ValueInv(s', w) {
      assert ValueInv(s, w);
    }
    forall u: nat, i: nat | u < |s'.threads| && i < N ensures SlotInv(s', u, i) {
      assert SlotInv(s, u, i);
    }
    forall u: nat | u < |s'.threads| ensures ThreadInv(s', u) {
      assert ThreadInv(s, u);
    }
  }

  lemma RunSetInv(s: State, t: nat, lockOk: bool)
    requires Inv(s) && t < |s.threads|
    ensures Inv(RunSet(s, t, lockOk))
  {
    assert ThreadInv(s, t);
    hide Inv;
    match s.threads[t].pc
    case SetLock(v) =>
      if !lockOk { LockFailsInv(s, t); }
      else if s.lock == None { MoveInv(s, Some(t), t, SetStore(v)); }
    case SetStore(v) => StoreInv(s, t);
    case SetUnlock(v) => MoveInv(s, None, t, SetPointer(v));
    case SetPointer(v) => PointerInv(s, t);
    case _ =>
  }

  lemma RunExitInv(s: State, t: nat, lockOk: bool)
    requires Inv(s) && t < |s.threads|
    ensures Inv(RunExit(s, t, lockOk))
  {
    assert HoldsLock(s.threads[t].pc) ==> s.lock == Some(t);
    hide Inv;
    match s.threads[t].pc
    case ExitLock =>
      if !lockOk { SkipInv(s, t, true); }
      else if s.lock == None { MoveInv(s, Some(t), t, ExitCopy); }
    case ExitCopy => MoveInv(s, s.lock, t, ExitUnlock(s.destructors));
    case ExitUnlock(copy) => MoveInv(s, None, t, ExitLoop(copy, 0));
    case ExitLoop(copy, i) =>
      if i >= N { EndInv(s, t); } else { SweepInv(s, t); }
    case _ =>
  }

  lemma StepInv(s: State, ev: Event)
    requires Inv(s)
    ensures Inv(Step(s, ev))
  {
    hide Inv;
    if ev.t < |s.threads| {
      var th := s.threads[ev.t];
      match ev
      case Set(t, index, d, keyOk, mallocOk, setspecificOk) =>
        if th.pc == Idle && index < N {
          var c := Call(t, index, d);
          var s' := BeginSet(s, t, c, keyOk, mallocOk, setspecificOk);
          RefuseInv(s, c, s'.once);
          BeginInv(s, c, s'.once, if th.pointers == None then Some(seq(N, i => None)) else th.pointers);
        }
      case Exit(t) =>
        if th.pc == Idle {
          if th.pointers == None { SkipInv(s, t, false); } else { MoveInv(s, s.lock, t, ExitLock); }
        }
      case Run(t, lockOk) =>
        RunSetInv(s, t, lockOk);
        RunExitInv(s, t, lockOk);
    }
  }

  lemma {:induction false} ExecInv(s: State, evs: seq<Event>)
    requires Initial(s)
    ensures Inv(Exec(s, evs))
    decreases |evs|
  {
    if evs != [] {
      hide Inv;
      ExecInv(s, evs[..|evs| - 1]);
      StepInv(Exec(s, evs[..|evs| - 1]), evs[|evs| - 1]);
    }
  }

  // ----- every value is destroyed once

  /** A later call of the same thread for the same index that returned 1. */
  ghost predicate Overwritten(s: State, v: nat)
    requires |s.results| == |s.calls| && v < |s.calls|
  {
    exists w :: v < w < |s.calls| && s.calls[w].thread == s.calls[v].thread
      && s.calls[w].index == s.calls[v].index && s.results[w] == Some(true)
  }

  /** No value is destroyed twice.  Once its thread has ended, a value has been destroyed
    * exactly once if and only if the call that handed it over returned 0 on any of its
    * failure paths, or it was not overwritten and the thread's last mutex lock succeeded. */
  lemma DestroyedExactlyOnce(s: State, evs: seq<Event>, v: nat)
    requires Initial(s) && v < |Exec(s, evs).calls|
    ensures var s' := Exec(s, evs);
            && |s'.results| == |s'.calls| && s'.calls[v].thread < |s'.threads|
            && Count(s'.log, v) <= 1
            && var pc := s'.threads[s'.calls[v].thread].pc;
               pc.Exited? ==>
                 && s'.results[v].Some?
                 && (Count(s'.log, v) == 1 <==>
                       s'.results[v] == Some(false) || (!Overwritten(s', v) && !pc.skipped))
  {
    hide Inv, Exec, Latest, Count, Overwritten;
    ExecInv(s, evs);
    ValueFacts(Exec(s, evs), v);
    LatestUnlessOverwritten(Exec(s, evs), v);
    var r := Exec(s, evs).results[v];
    assert r.Some? ==> if r.value then r == Some(true) else r == Some(false);
  }

  lemma LatestUnlessOverwritten(s: State, v: nat)
    requires |s.results| == |s.calls| && v < |s.calls|
    ensures s.results[v] == Some(true) ==>
              (Latest(s.calls, s.results, s.calls[v].thread, s.calls[v].index) == Some(v) <==> !Overwritten(s, v))
  {
    hide Latest;
    LatestIs(s.calls, s.results, s.calls[v].thread, s.calls[v].index);
  }

  /** The invariant of one value, at the end of its thread. */
  lemma ValueFacts(s: State, v: nat)
    requires Inv(s) && v < |s.calls|
    ensures |s.results| == |s.calls| && s.calls[v].thread < |s.threads|
    ensures Count(s.log, v) <= 1
    ensures var c := s.calls[v];
            var pc := s.threads[c.thread].pc;
            pc.Exited? ==>
              && s.results[v].Some?
              && (s.results[v] == Some(false) ==> Count(s.log, v) == 1)
              && (s.results[v] == Some(true) ==>
                    (Count(s.log, v) == 1 <==> Latest(s.calls, s.results, c.thread, c.index) == Some(v) && !pc.skipped))
  {
    assert ValueInv(s, v);
    hide Latest, Count;
  }

  /** A thread that has not ended reads back, at each index, the value of its last call
    * for that index that returned 1, and NULL if there is none. */
  lemma GetReturnsLastSet(s: State, evs: seq<Event>, t: nat, i: nat)
    requires Initial(s) && t < |Exec(s, evs).threads| && i < N && !Exec(s, evs).threads[t].pc.Exited?
    ensures var s' := Exec(s, evs);
            var got := Get(s'.threads[t], i);
            && |s'.results| == |s'.calls|
            && (got.Some? ==>
                  && got.value < |s'.calls| && s'.calls[got.value].thread == t && s'.calls[got.value].index == i
                  && s'.results[got.value] == Some(true) && !Overwritten(s', got.value))
            && (got == None ==>
                  forall w | 0 <= w < |s'.calls| && s'.calls[w].thread == t && s'.calls[w].index == i ::
                    s'.results[w] != Some(true))
  {
    ExecInv(s, evs);
    var s' := Exec(s, evs);
    assert SlotInv(s', t, i);
    LatestIs(s'.calls, s'.results, t, i);
  }

  /** No two threads are between lock and unlock, where the destructor table is used. */
  lemma TableIsExclusive(s: State, evs: seq<Event>, t: nat, u: nat)
    requires Initial(s) && t < |Exec(s, evs).threads| && u < |Exec(s, evs).threads| && t != u
    ensures !(HoldsLock(Exec(s, evs).threads[t].pc) && HoldsLock(Exec(s, evs).threads[u].pc))
  {
    ExecInv(s, evs);
  }

  // ----- by a destructor given for its index

  ghost predicate Given(calls: seq<Call>, i: nat, d: int) {
    exists w :: 0 <= w < |calls| && calls[w].index == i && calls[w].destructor == d
  }

  ghost predicate TableGiven(calls: seq<Call>, table: seq<Option<int>>) {
    forall i: nat | i < |table| && table[i].Some? :: Given(calls, i, table[i].value)
  }

  ghost predicate LogGiven(calls: seq<Call>, log: seq<Destroyed>) {
    forall k: nat | k < |log| && log[k].value.Some? ::
      log[k].value.value < |calls| && Given(calls, calls[log[k].value.value].index, log[k].destructor)
  }

  ghost predicate CopiesGiven(calls: seq<Call>, ts: seq<Thread>) {
    forall t: nat | t < |ts| && (ts[t].pc.ExitUnlock? || ts[t].pc.ExitLoop?) :: TableGiven(calls, ts[t].pc.copy)
  }

  ghost predicate GivenInv(s: State) {
    TableGiven(s.calls, s.destructors) && LogGiven(s.calls, s.log) && CopiesGiven(s.calls, s.threads)
  }

  lemma GivenMore(s: State, c: Call)
    requires GivenInv(s)
    ensures TableGiven(s.calls + [c], s.destructors) && LogGiven(s.calls + [c], s.log)
    ensures CopiesGiven(s.calls + [c], s.threads)
    ensures Given(s.calls + [c], c.index, c.destructor)
  {
    forall i: nat, d: int | Given(s.calls, i, d) ensures Given(s.calls + [c], i, d) {
      var w :| 0 <= w < |s.calls| && s.calls[w].index == i && s.calls[w].destructor == d;
      assert (s.calls + [c])[w] == s.calls[w];
    }
    assert (s.calls + [c])[|s.calls|] == c;
    hide Given;
  }

  lemma RunSetGiven(s: State, t: nat, lockOk: bool)
    requires Inv(s) && GivenInv(s) && t < |s.threads|
    ensures GivenInv(RunSet(s, t, lockOk))
  {
    var th := s.threads[t];
    assert ThreadInv(s, t);
    if th.pc.SetLock? || th.pc.SetStore? {
      assert InFlight(th.pc, th.pc.value);
      assert Given(s.calls, s.calls[th.pc.value].index, s.calls[th.pc.value].destructor);
    }
    hide Given, Inv;
  }

  lemma RunExitGiven(s: State, t: nat, lockOk: bool)
    requires Inv(s) && GivenInv(s) && t < |s.threads|
    ensures GivenInv(RunExit(s, t, lockOk))
  {
    var th := s.threads[t];
    if th.pc.ExitLoop? && th.pc.i < N {
      assert SlotInv(s, t, th.pc.i);
      LatestIs(s.calls, s.results, t, th.pc.i);
    }
    hide Given, Inv, Latest;
  }

  lemma StepGiven(s: State, ev: Event)
    requires Inv(s) && GivenInv(s)
    ensures GivenInv(Step(s, ev))
  {
    hide Given, Inv;
    if ev.t < |s.threads| {
      if ev.Run? {
        RunSetGiven(s, ev.t, ev.lockOk);
        RunExitGiven(s, ev.t, ev.lockOk);
        hide RunSet, RunExit;
      } else if ev.Set? {
        GivenMore(s, Call(ev.t, ev.index, ev.destructor));
      }
    }
  }

  /** Whatever destroys a value was registered, by some call, for the value's index: with
    * one destructor per index, as the callers use it, it is the value's own. */
  lemma {:induction false} DestroyedByItsIndex(s: State, evs: seq<Event>)
    requires Initial(s)
    ensures GivenInv(Exec(s, evs))
    decreases |evs|
  {
    if evs != [] {
      DestroyedByItsIndex(s, evs[..|evs| - 1]);
      ExecInv(s, evs[..|evs| - 1]);
      hide Inv, GivenInv;
      StepGiven(Exec(s, evs[..|evs| - 1]), evs[|evs| - 1]);
    }
  }

  /** A value whose call returned 0 was destroyed by the destructor of that call. */
  ghost predicate RefusedInv(s: State) {
    && |s.results| == |s.calls|
    && forall k: nat | k < |s.log| && s.log[k].value.Some? ::
         var v := s.log[k].value.value;
         v < |s.calls| && (s.results[v] == Some(false) ==> s.log[k].destructor == s.calls[v].destructor)
  }

  lemma {:induction false} NotLogged(log: seq<Destroyed>, v: nat, k: nat)
    requires Count(log, v) == 0 && k < |log|
    ensures log[k].value != Some(v)
    decreases |log|
  {
    if k < |log| - 1 { NotLogged(log[..|log| - 1], v, k); }
  }

  lemma RunSetRefused(s: State, t: nat, lockOk: bool)
    requires Inv(s) && RefusedInv(s) && t < |s.threads|
    ensures RefusedInv(RunSet(s, t, lockOk))
  {
    var th := s.threads[t];
    assert ThreadInv(s, t);
    if th.pc.SetLock? || th.pc.SetPointer? {
      var v := th.pc.value;
      assert InFlight(th.pc, v);
      assert ValueInv(s, v);
      forall k: nat | k < |s.log| ensures s.log[k].value != Some(v) {
        NotLogged(s.log, v, k);
      }
    }
    hide Inv, Count;
  }

  lemma RunExitRefused(s: State, t: nat, lockOk: bool)
    requires Inv(s) && RefusedInv(s) && t < |s.threads|
    ensures RefusedInv(RunExit(s, t, lockOk))
  {
    var th := s.threads[t];
    if th.pc.ExitLoop? && th.pc.i < N {
      assert SlotInv(s, t, th.pc.i);
      LatestIs(s.calls, s.results, t, th.pc.i);
    }
    hide Inv, Latest;
  }

  lemma StepRefused(s: State, ev: Event)
    requires Inv(s) && RefusedInv(s)
    ensures RefusedInv(Step(s, ev))
  {
    hide Inv;
    if ev.t < |s.threads| {
      if ev.Run? {
        hide RefusedInv, RunSet, RunExit;
        RunSetRefused(s, ev.t, ev.lockOk);
        RunExitRefused(s, ev.t, ev.lockOk);
      } else if ev.Set? {
        BeginRefused(s, ev.t, Call(ev.t, ev.index, ev.destructor), ev.keyOk, ev.mallocOk, ev.setspecificOk);
        hide BeginSet;
      }
    }
  }

  lemma BeginRefused(s: State, t: nat, c: Call, keyOk: bool, mallocOk: bool, setspecificOk: bool)
    requires RefusedInv(s) && t < |s.threads|
    ensures RefusedInv(BeginSet(s, t, c, keyOk, mallocOk, setspecificOk))
  {
    var s' := BeginSet(s, t, c, keyOk, mallocOk, setspecificOk);
    assert s'.calls == s.calls + [c];
  }

  lemma {:induction false} ExecRefused(s: State, evs: seq<Event>)
    requires Initial(s)
    ensures RefusedInv(Exec(s, evs))
    decreases |evs|
  {
    if evs != [] {
      var n := |evs| - 1;
      hide Inv, RefusedInv, Step;
      ExecRefused(s, evs[..n]);
      ExecInv(s, evs[..n]);
      StepRefused(Exec(s, evs[..n]), evs[n]);
    }
  }

  /** Every destruction of a value is by its own destructor when its call returned 0, and
    * otherwise whenever all calls for its index give the same one. */
  lemma DestroyedByOwnDestructor(s: State, evs: seq<Event>, k: nat)
    requires Initial(s) && k < |Exec(s, evs).log| && Exec(s, evs).log[k].value.Some?
    ensures var s' := Exec(s, evs);
            var v := s'.log[k].value.value;
            && v < |s'.calls| == |s'.results|
            && (s'.results[v] == Some(false)
                || (forall w | 0 <= w < |s'.calls| && s'.calls[w].index == s'.calls[v].index ::
                      s'.calls[w].destructor == s'.calls[v].destructor)
                ==> s'.log[k].destructor == s'.calls[v].destructor)
  {
    DestroyedByItsIndex(s, evs);
    ExecRefused(s, evs);
    hide Exec;
  }

  // ----- how values are lost

  lemma ExecSnoc(s: State, evs: seq<Event>, ev: Event)
    ensures Exec(s, evs + [ev]) == Step(Exec(s, evs), ev)
  {
    assert (evs + [ev])[..|evs|] == evs;
  }

  /** Thread 0 is at `pc`, having made the given calls with the given results. */
  ghost predicate At(s: State, pc: Pc, lock: Option<nat>, calls: seq<Call>, results: seq<Option<bool>>) {
    && |s.threads| > 0 && s.threads[0].pc == pc && s.lock == lock && s.once != KeyFailed
    && |s.destructors| == N && s.calls == calls && s.results == results
    && (s.threads[0].pointers.Some? ==> |s.threads[0].pointers.value| == N)
    && (pc != Idle || calls != [] ==> s.threads[0].pointers.Some? || pc.Exited?)
  }

  const CALL := Call(0, 0, 0)

  /** Thread 0 stores a value under index 0. */
  lemma StoreOne(s: State, before: seq<Event>, calls: seq<Call>, results: seq<Option<bool>>) returns (evs: seq<Event>)
    requires At(Exec(s, before), Idle, None, calls, results) && |calls| == |results|
    ensures At(Exec(s, evs), Idle, None, calls + [CALL], results + [Some(true)])
  {
    hide Exec;
    var v, more := |calls|, calls + [CALL];
    evs := before + [Set(0, 0, 0, true, true, true)];
    ExecSnoc(s, before, Set(0, 0, 0, true, true, true));
    assert At(Exec(s, evs), SetLock(v), None, more, results + [None]);
    evs := RunOn(s, evs, true, SetStore(v), Some(0), more, results + [None]);
    evs := RunOn(s, evs, true, SetUnlock(v), Some(0), more, results + [None]);
    evs := RunOn(s, evs, true, SetPointer(v), None, more, results + [None]);
    assert (results + [None])[v := Some(true)] == results + [Some(true)];
    evs := RunOn(s, evs, true, Idle, None, more, results + [Some(true)]);
  }

  lemma RunOn(s: State, before: seq<Event>, lockOk: bool, pc: Pc, lock: Option<nat>, calls: seq<Call>, results: seq<Option<bool>>)
    returns (evs: seq<Event>)
    requires At(Step(Exec(s, before), Run(0, lockOk)), pc, lock, calls, results)
    ensures At(Exec(s, evs), pc, lock, calls, results)
  {
    hide Step, At;
    evs := before + [Run(0, lockOk)];
    ExecSnoc(s, before, Run(0, lockOk));
  }

  /** The sweep comes to its end. */
  lemma {:induction false} SweepOn(s: State, before: seq<Event>, copy: seq<Option<int>>, i: nat, calls: seq<Call>, results: seq<Option<bool>>)
    returns (evs: seq<Event>)
    requires i <= N == |copy| && At(Exec(s, before), ExitLoop(copy, i), None, calls, results)
    ensures At(Exec(s, evs), Exited(false), None, calls, results)
    decreases N - i
  {
    if i == N {
      evs := RunOn(s, before, true, Exited(false), None, calls, results);
    } else {
      evs := RunOn(s, before, true, ExitLoop(copy, i + 1), None, calls, results);
      evs := SweepOn(s, evs, copy, i + 1, calls, results);
    }
  }

  /** Thread 0 ends; its last mutex lock succeeds or fails. */
  lemma EndThread(s: State, before: seq<Event>, lockOk: bool, calls: seq<Call>, results: seq<Option<bool>>)
    returns (evs: seq<Event>)
    requires At(Exec(s, before), Idle, None, calls, results) && calls != []
    ensures At(Exec(s, evs), Exited(!lockOk), None, calls, results)
  {
    hide Exec;
    evs := before + [Exit(0)];
    ExecSnoc(s, before, Exit(0));
    if lockOk {
      evs := RunOn(s, evs, true, ExitCopy, Some(0), calls, results);
      var copy := Exec(s, evs).destructors;
      evs := RunOn(s, evs, true, ExitUnlock(copy), Some(0), calls, results);
      evs := RunOn(s, evs, true, ExitLoop(copy, 0), None, calls, results);
      evs := SweepOn(s, evs, copy, 0, calls, results);
    } else {
      evs := RunOn(s, evs, false, Exited(true), None, calls, results);
    }
  }

  /** A run in which the thread ends normally and its first value, overwritten by the second,
    * was never destroyed. */
  lemma LostWhenOverwritten(s: State) returns (evs: seq<Event>)
    requires Initial(s) && |s.threads| > 0
    ensures var s' := Exec(s, evs);
            && |s'.threads| > 0 && s'.threads[0].pc == Exited(false)
            && s'.calls == [CALL, CALL] && s'.results == [Some(true), Some(true)]
            && Count(s'.log, 0) == 0
  {
    evs := StoreOne(s, [], [], []);
    evs := StoreOne(s, evs, [CALL], [Some(true)]);
    evs := EndThread(s, evs, true, [CALL, CALL], [Some(true), Some(true)]);
    DestroyedExactlyOnce(s, evs, 0);
    assert Exec(s, evs).results[1] == Some(true);
  }

  /** A run in which the thread ends and its only value was never destroyed, because the mutex
    * could not be locked. */
  lemma LostWhenLockFails(s: State) returns (evs: seq<Event>)
    requires Initial(s) && |s.threads| > 0
    ensures var s' := Exec(s, evs);
            && |s'.threads| > 0 && s'.threads[0].pc == Exited(true)
            && s'.calls == [CALL] && s'.results == [Some(true)]
            && Count(s'.log, 0) == 0
  {
    evs := StoreOne(s, [], [], []);
    evs := EndThread(s, evs, false, [CALL], [Some(true)]);
    DestroyedExactlyOnce(s, evs, 0);
  }
}
