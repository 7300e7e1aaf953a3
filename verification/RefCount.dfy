/** The saturating reference count of crypto/refcount.cc.
  *
  * Any number of threads run `CRYPTO_refcount_inc` and
  * `CRYPTO_refcount_dec_and_test_zero` at once.  One step of the machine is one
  * atomic access to the shared word: a load, or a weak compare-and-exchange that
  * may fail spuriously.  Between calls a thread may hand a reference to another.
  *
  * A run is any sequence of events.  An event that is not enabled leaves the
  * state alone, so "for every sequence of events" is "for every interleaving".
  */
module RefCount {
  const MAX: nat := 0xFFFF_FFFF

  /** Where a thread is inside the two functions; `expected` is their local. */
  datatype Pc =
    | Idle
    | IncLoop(expected: nat)
    | DecLoop(expected: nat)
    | Aborted

  /** `held` counts the references the thread owns.  `wins` and `fails` count its
    * successful exchanges and its exchanges that failed because the word differed. */
  datatype Thread = Thread(pc: Pc, held: nat, wins: nat, fails: nat)

  /** `zeros` counts the decrements that returned 1; `wins` counts all successful exchanges. */
  datatype State = State(count: nat, threads: seq<Thread>, wins: nat, zeros: nat)

  datatype Event =
    | CallInc(t: nat)
    | CallDec(t: nat)
    | Resume(t: nat, spurious: bool)
    | Give(from: nat, to: nat)

  function Held(ts: seq<Thread>): nat {
    if ts == [] then 0 else ts[0].held + Held(ts[1..])
  }

  function Wins(ts: seq<Thread>): nat {
    if ts == [] then 0 else ts[0].wins + Wins(ts[1..])
  }

  // ----- the program

  function Put(s: State, t: nat, th: Thread): State
    requires t < |s.threads|
  {
    s.(threads := s.threads[t := th])
  }

  /** One trip round the loop of `CRYPTO_refcount_inc`. */
  function IncTurn(s: State, t: nat, spurious: bool): State
    requires t < |s.threads| && s.threads[t].pc.IncLoop?
  {
    var th := s.threads[t];
    var e := th.pc.expected;
    if e == MAX then
      Put(s, t, th.(pc := Idle, held := th.held + 1))
    else if s.count == e && !spurious then
      Put(s, t, th.(pc := Idle, held := th.held + 1, wins := th.wins + 1)).(count := e + 1, wins := s.wins + 1)
    else
      Put(s, t, th.(pc := IncLoop(s.count), fails := th.fails + if s.count == e then 0 else 1))
  }

  /** One trip round the loop of `CRYPTO_refcount_dec_and_test_zero`. */
  function DecTurn(s: State, t: nat, spurious: bool): State
    requires t < |s.threads| && s.threads[t].pc.DecLoop?
  {
    var th := s.threads[t];
    var e := th.pc.expected;
    if e == 0 then
      Put(s, t, th.(pc := Aborted))
    else if e == MAX then
      Put(s, t, th.(pc := Idle, held := if th.held > 0 then th.held - 1 else 0))
    else if s.count == e && !spurious then
      Put(s, t, th.(pc := Idle, held := if th.held > 0 then th.held - 1 else 0, wins := th.wins + 1))
      .(count := e - 1, wins := s.wins + 1, zeros := s.zeros + if e - 1 == 0 then 1 else 0)
    else
      Put(s, t, th.(pc := DecLoop(s.count), fails := th.fails + if s.count == e then 0 else 1))
  }

  function Step(s: State, ev: Event): State {
    match ev
    case CallInc(t) =>
      if t < |s.threads| && s.threads[t].pc == Idle && s.threads[t].held > 0 then
        Put(s, t, s.threads[t].(pc := IncLoop(s.count)))
      else s
    case CallDec(t) =>
      if t < |s.threads| && s.threads[t].pc == Idle && s.threads[t].held > 0 then
        Put(s, t, s.threads[t].(pc := DecLoop(s.count)))
      else s
    case Resume(t, spurious) =>
      if t < |s.threads| && s.threads[t].pc.IncLoop? then IncTurn(s, t, spurious)
      else if t < |s.threads| && s.threads[t].pc.DecLoop? then DecTurn(s, t, spurious)
      else s
    case Give(a, b) =>
      if a < |s.threads| && b < |s.threads| && a != b
         && s.threads[a].pc == Idle && s.threads[a].held > 0 then
        var s1 := Put(s, a, s.threads[a].(held := s.threads[a].held - 1));
        Put(s1, b, s1.threads[b].(held := s1.threads[b].held + 1))
      else s
  }

  function Exec(s: State, evs: seq<Event>): State
    decreases |evs|
  {
    if evs == [] then s else Step(Exec(s, evs[..|evs| - 1]), evs[|evs| - 1])
  }

  /** A fresh object: its creator holds the only reference. */
  predicate Initial(s: State) {
    && |s.threads| > 0
    && s.count == 1 && s.wins == 0 && s.zeros == 0
    && (forall t | 0 <= t < |s.threads| ::
          s.threads[t] == Thread(Idle, if t == 0 then 1 else 0, 0, 0))
  }

  // ----- what every state of every run satisfies

  ghost predicate ThreadInv(s: State, th: Thread) {
    && !th.pc.Aborted?
    && th.wins <= s.wins
    && th.fails + th.wins <= s.wins
    && (th.pc.IncLoop? || th.pc.DecLoop? ==>
          && th.held > 0
          && 0 < th.pc.expected <= MAX
          && (th.pc.expected == MAX ==> s.count == MAX)
          && (th.pc.expected != s.count ==> th.fails + th.wins < s.wins))
  }

  ghost predicate Inv(s: State) {
    && 0 <= s.count <= MAX
    && (s.count == MAX || s.count == Held(s.threads))
    && s.zeros == (if s.count == 0 then 1 else 0)
    && s.wins == Wins(s.threads)
    && (forall t | 0 <= t < |s.threads| :: ThreadInv(s, s.threads[t]))
  }

  lemma {:induction false} SumUpdate(ts: seq<Thread>, t: nat, th: Thread)
    requires t < |ts|
    ensures Held(ts[t := th]) == Held(ts) - ts[t].held + th.held
    ensures Wins(ts[t := th]) == Wins(ts) - ts[t].wins + th.wins
    ensures ts[t].held <= Held(ts)
  {
    if t == 0 {
      assert ts[t := th][1..] == ts[1..];
    } else {
      SumUpdate(ts[1..], t - 1, th);
      assert ts[t := th][1..] == ts[1..][t - 1 := th];
    }
  }

  lemma {:induction false} HeldZero(ts: seq<Thread>, t: nat)
    requires t < |ts| && Held(ts) == 0
    ensures ts[t].held == 0
  {
    SumUpdate(ts, t, ts[t]);
  }

  lemma {:induction false} InitialInv(s: State)
    requires Initial(s)
    ensures Inv(s) && Held(s.threads) == 1
  {
    SumZero(s.threads[1..]);
  }

  lemma {:induction false} SumZero(ts: seq<Thread>)
    requires forall t | 0 <= t < |ts| :: ts[t].held == 0 && ts[t].wins == 0
    ensures Held(ts) == 0 && Wins(ts) == 0
  {
    if ts != [] { SumZero(ts[1..]); }
  }

  lemma StepInv(s: State, ev: Event)
    requires Inv(s)
    ensures Inv(Step(s, ev))
  {
    if Step(s, ev) != s {
      match ev
      case Resume(t, spurious) => ResumeInv(s, t, spurious);
      case Give(a, b) => GiveInv(s, a, b);
      case _ => CallInv(s, ev);
    }
  }

  lemma CallInv(s: State, ev: Event)
    requires Inv(s) && (ev.CallInc? || ev.CallDec?) && Step(s, ev) != s
    ensures Inv(Step(s, ev))
  {
    var s' := Step(s, ev);
    SumUpdate(s.threads, ev.t, s'.threads[ev.t]);
    forall u | 0 <= u < |s'.threads| ensures ThreadInv(s', s'.threads[u]) {
      assert ThreadInv(s, s.threads[u]);
    }
  }

  lemma GiveInv(s: State, a: nat, b: nat)
    requires Inv(s) && Step(s, Give(a, b)) != s
    ensures Inv(Step(s, Give(a, b)))
  {
    var s' := Step(s, Give(a, b));
    var mid := s.threads[a := s.threads[a].(held := s.threads[a].held - 1)];
    SumUpdate(s.threads, a, mid[a]);
    SumUpdate(mid, b, s'.threads[b]);
    hide Held, Wins;
    forall u | 0 <= u < |s'.threads| ensures ThreadInv(s', s'.threads[u]) {
      assert ThreadInv(s, s.threads[u]);
    }
  }

  lemma ResumeInv(s: State, t: nat, spurious: bool)
    requires Inv(s) && t < |s.threads| && (s.threads[t].pc.IncLoop? || s.threads[t].pc.DecLoop?)
    ensures Inv(Step(s, Resume(t, spurious)))
  {
    var s' := Step(s, Resume(t, spurious));
    assert ThreadInv(s, s.threads[t]);
    SumUpdate(s.threads, t, s'.threads[t]);
    forall u | 0 <= u < |s'.threads| ensures ThreadInv(s', s'.threads[u]) {
      assert ThreadInv(s, s.threads[u]);
      if s'.count == 0 && u != t { HeldZero(s'.threads, u); }
    }
  }

  lemma {:induction false} ExecInv(s: State, evs: seq<Event>)
    requires Inv(s)
    ensures Inv(Exec(s, evs))
    decreases |evs|
  {
    if evs != [] {
      ExecInv(s, evs[..|evs| - 1]);
      StepInv(Exec(s, evs[..|evs| - 1]), evs[|evs| - 1]);
    }
  }

  // ----- the count is the number of references

  /** In every run the word is the number of outstanding references, or is stuck at
    * its maximum, and `abort` is never reached. */
  lemma CountIsReferences(s: State, evs: seq<Event>)
    requires Initial(s)
    ensures var s' := Exec(s, evs);
            && (s'.count == MAX || s'.count == Held(s'.threads))
            && (forall t | 0 <= t < |s'.threads| :: s'.threads[t].pc != Aborted)
  {
    InitialInv(s);
    ExecInv(s, evs);
    var s' := Exec(s, evs);
    forall t | 0 <= t < |s'.threads| ensures s'.threads[t].pc != Aborted {
      assert ThreadInv(s', s'.threads[t]);
    }
  }

  /** Once saturated, the count stays saturated. */
  lemma {:induction false} SaturationIsPermanent(s: State, evs: seq<Event>, more: seq<Event>)
    requires Exec(s, evs).count == MAX
    ensures Exec(s, evs + more).count == MAX
    decreases |more|
  {
    if more == [] {
      assert evs + more == evs;
    } else {
      var n := |more| - 1;
      SaturationIsPermanent(s, evs, more[..n]);
      assert (evs + more)[..|evs + more| - 1] == evs + more[..n];
    }
  }

  // ----- the object is freed once, and only when unreferenced

  /** At most one decrement of a run returns 1.  One has exactly when the word is 0,
    * and then no reference is left and no thread is inside either function; short of
    * saturation, losing the last reference always produces that 1. */
  lemma FreedOnceWhenUnreferenced(s: State, evs: seq<Event>)
    requires Initial(s)
    ensures var s' := Exec(s, evs);
            && s'.zeros <= 1
            && (s'.zeros == 1 <==> s'.count == 0)
            && (s'.zeros == 1 <==> Held(s'.threads) == 0 && s'.count != MAX)
            && (s'.zeros == 1 ==> forall t | 0 <= t < |s'.threads| :: s'.threads[t].pc == Idle)
  {
    InitialInv(s);
    ExecInv(s, evs);
    var s' := Exec(s, evs);
    if s'.count == 0 {
      forall t | 0 <= t < |s'.threads| ensures s'.threads[t].pc == Idle {
        HeldZero(s'.threads, t);
        assert ThreadInv(s', s'.threads[t]);
      }
    }
  }

  ghost predicate Dead(s: State) {
    forall t | 0 <= t < |s.threads| :: s.threads[t].pc == Idle && s.threads[t].held == 0
  }

  lemma DeadStutters(s: State, ev: Event)
    requires Dead(s)
    ensures Step(s, ev) == s
  {
  }

  lemma FreedIsDead(s: State, evs: seq<Event>)
    requires Initial(s) && Exec(s, evs).zeros == 1
    ensures Dead(Exec(s, evs))
  {
    FreedOnceWhenUnreferenced(s, evs);
    var s' := Exec(s, evs);
    forall t | 0 <= t < |s'.threads| ensures s'.threads[t].held == 0 {
      HeldZero(s'.threads, t);
    }
  }

  /** After the 1 has been returned nothing happens any more. */
  lemma {:induction false} FreedIsFinal(s: State, evs: seq<Event>, more: seq<Event>)
    requires Initial(s) && Exec(s, evs).zeros == 1
    ensures Exec(s, evs + more) == Exec(s, evs)
    decreases |more|
  {
    if more == [] {
      assert evs + more == evs;
    } else {
      var n := |more| - 1;
      FreedIsFinal(s, evs, more[..n]);
      assert (evs + more)[..|evs + more| - 1] == evs + more[..n];
      FreedIsDead(s, evs);
      DeadStutters(Exec(s, evs), more[n]);
      hide Step, Dead;
    }
  }

  // ----- progress: losing a race means another thread won

  /** A thread's exchanges that failed on a changed word never outnumber the
    * successful exchanges of the other threads. */
  lemma FailuresAreOthersSuccesses(s: State, evs: seq<Event>, t: nat)
    requires Initial(s) && t < |Exec(s, evs).threads|
    ensures var s' := Exec(s, evs);
            s'.threads[t].fails <= Wins(s'.threads) - s'.threads[t].wins
  {
    InitialInv(s);
    ExecInv(s, evs);
    assert ThreadInv(Exec(s, evs), Exec(s, evs).threads[t]);
  }

  // ----- the loops refine atomic saturating operations

  datatype Op = Inc | Dec

  /** The sequential object: the word, and how many decrements returned 1. */
  datatype Atomic = Atomic(count: nat, zeros: nat)

  function Apply(a: Atomic, op: Op): Atomic {
    if a.count == MAX then a
    else match op
      case Inc => a.(count := a.count + 1)
      case Dec =>
        if a.count == 0 then a
        else Atomic(a.count - 1, a.zeros + if a.count == 1 then 1 else 0)
  }

  function ApplyAll(a: Atomic, ops: seq<Op>): Atomic
    decreases |ops|
  {
    if ops == [] then a else Apply(ApplyAll(a, ops[..|ops| - 1]), ops[|ops| - 1])
  }

  /** The call that the event completes, if it completes one. */
  function Completed(s: State, ev: Event): seq<Op> {
    if ev.Resume? && ev.t < |s.threads| && Step(s, ev).threads[ev.t].pc == Idle then
      match s.threads[ev.t].pc
      case IncLoop(_) => [Inc]
      case DecLoop(_) => [Dec]
      case _ => []
    else []
  }

  function CompletedOps(s: State, evs: seq<Event>): seq<Op>
    decreases |evs|
  {
    if evs == [] then []
    else
      var n := |evs| - 1;
      CompletedOps(s, evs[..n]) + Completed(Exec(s, evs[..n]), evs[n])
  }

  /** Linearizability: the word and the 1s returned are those of running the completed
    * calls one after another, atomically, in the order in which they completed. */
  lemma {:induction false} Linearizable(s: State, evs: seq<Event>)
    requires Initial(s)
    ensures Atomic(Exec(s, evs).count, Exec(s, evs).zeros)
         == ApplyAll(Atomic(1, 0), CompletedOps(s, evs))
    decreases |evs|
  {
    if evs != [] {
      var n := |evs| - 1;
      var mid := Exec(s, evs[..n]);
      Linearizable(s, evs[..n]);
      InitialInv(s);
      ExecInv(s, evs[..n]);
      StepIsAtomic(mid, evs[n]);
      var before, now := CompletedOps(s, evs[..n]), Completed(mid, evs[n]);
      if now == [] {
        assert before + now == before;
      } else {
        assert (before + now)[..|before|] == before;
      }
    }
  }

  lemma StepIsAtomic(s: State, ev: Event)
    requires Inv(s)
    ensures var s' := Step(s, ev);
            var ops := Completed(s, ev);
            |ops| <= 1 &&
            Atomic(s'.count, s'.zeros) ==
              if ops == [] then Atomic(s.count, s.zeros) else Apply(Atomic(s.count, s.zeros), ops[0])
  {
    if ev.Resume? && ev.t < |s.threads| {
      assert ThreadInv(s, s.threads[ev.t]);
    }
  }
}
