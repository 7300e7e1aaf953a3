/** The per-object values of crypto/ex_data.cc: CRYPTO_set_ex_data and CRYPTO_get_ex_data.
  * Pointers are numbers and 0 is NULL; which allocations succeed is an input.
  */
module ExDataSlots {
  import opened Basics

  type Stack = Option<seq<nat>>

  const NULL: nat := 0

  function ValueAt(sk: Stack, idx: int): nat {
    if sk == None || idx < 0 || idx >= |sk.value| then NULL else sk.value[idx]
  }

  /** One call of set: the stack can be created or not, and so many pushes can succeed. */
  datatype SetCall = SetCall(index: int, val: nat, canCreate: bool, pushes: nat)

  /** How a call of set ends: it returns 1, returns 0, or aborts the process. */
  datatype Outcome = Stored | OutOfMemory | Aborted

  function Pushed(s: seq<nat>, n: nat): (r: seq<nat>)
    ensures |r| == |s| + n && forall i | 0 <= i < |r| :: r[i] == if i < |s| then s[i] else NULL
  {
    s + seq(n, i => NULL)
  }

  predicate Succeeds(sk: Stack, c: SetCall) {
    c.index >= 0 && if sk.Some? then c.index < |sk.value| + c.pushes else c.canCreate && c.index < c.pushes
  }

  /** The stack after the call, whether it succeeds or stops for want of memory. */
  function AfterSet(sk: Stack, c: SetCall): Stack {
    if c.index < 0 || (sk == None && !c.canCreate) then sk
    else
      var s := if sk.Some? then sk.value else [];
      if Succeeds(sk, c) then
        Some(Pushed(s, if c.index < |s| then 0 else c.index + 1 - |s|)[c.index := c.val])
      else Some(Pushed(s, c.pushes))
  }

  // ----- whole histories

  function Run(calls: seq<SetCall>): Stack
    decreases |calls|
  {
    if calls == [] then None else AfterSet(Run(calls[..|calls| - 1]), calls[|calls| - 1])
  }

  /** The value of the last successful set of an index, or NULL. */
  function LastSet(calls: seq<SetCall>, idx: int): nat
    decreases |calls|
  {
    if calls == [] then NULL
    else
      var n := |calls| - 1;
      if calls[n].index == idx && Succeeds(Run(calls[..n]), calls[n]) then calls[n].val
      else LastSet(calls[..n], idx)
  }

  lemma {:induction false} GetsLastSet(calls: seq<SetCall>, idx: int)
    ensures ValueAt(Run(calls), idx) == LastSet(calls, idx)
    decreases |calls|
  {
    if calls != [] {
      var n := |calls| - 1;
      GetsLastSet(calls[..n], idx);
      OneSet(Run(calls[..n]), calls[n], idx);
      hide AfterSet, Succeeds, ValueAt;
    }
  }

  lemma OneSet(sk: Stack, c: SetCall, idx: int)
    ensures ValueAt(AfterSet(sk, c), idx) == if Succeeds(sk, c) && idx == c.index then c.val else ValueAt(sk, idx)
  {
  }

  // ----- the object

  class ExDataValues {
    var sk: Stack
    /** The calls of set so far. */
    ghost var sets: seq<SetCall>

    ghost predicate Valid()
      reads this
    {
      sk == Run(sets)
    }

    /** CRYPTO_new_ex_data */
    constructor ()
      ensures Valid() && sets == []
    {
      sk := None;
      sets := [];
    }

    /** CRYPTO_get_ex_data: the value last stored under the index, and NULL before that. */
    method Get(idx: int) returns (val: nat)
      requires Valid()
      ensures val == LastSet(sets, idx)
    {
      GetsLastSet(sets, idx);
      hide Run, LastSet;
      if sk == None || idx < 0 || idx >= |sk.value| {
        return NULL;
      }
      return sk.value[idx];
    }

    /** CRYPTO_set_ex_data: on success exactly the one value changes; a call that fails for want
      * of memory may leave a longer stack, but every get answers as before; a negative index aborts. */
    method Set(c: SetCall) returns (outcome: Outcome)
      requires Valid()
      modifies this
      ensures Valid() && sets == old(sets) + [c]
      ensures outcome == Aborted <==> c.index < 0
      ensures outcome == Stored <==> old(Succeeds(sk, c))
      ensures forall i :: LastSet(sets, i) == if outcome == Stored && i == c.index then c.val else old(LastSet(sets, i))
    {
      outcome := Store(c);
      OneMoreSet(sets, c);
      sets := sets + [c];
    }

    method Store(c: SetCall) returns (outcome: Outcome)
      modifies this`sk
      ensures outcome == Aborted <==> c.index < 0
      ensures outcome == Stored <==> old(Succeeds(sk, c))
      ensures sk == AfterSet(old(sk), c)
    {
      if c.index < 0 {
        return Aborted;
      }
      if sk == None {
        if !c.canCreate {
          return OutOfMemory;
        }
        sk := Some([]);
      }
      ghost var start := sk.value;
      var i, pushes := |sk.value|, c.pushes;
      while i <= c.index
        invariant sk.Some? && i == |sk.value| && i + pushes == |start| + c.pushes && i >= |start|
        invariant sk.value == Pushed(start, i - |start|)
        invariant i <= c.index + 1 || i == |start|
        decreases c.index + 1 - i
      {
        if pushes == 0 {
          return OutOfMemory;
        }
        pushes := pushes - 1;
        sk := Some(sk.value + [NULL]);
        i := i + 1;
      }
      sk := Some(sk.value[c.index := c.val]);
      return Stored;
    }
  }

  lemma OneMoreSet(calls: seq<SetCall>, c: SetCall)
    ensures Run(calls + [c]) == AfterSet(Run(calls), c)
    ensures forall i ::
              LastSet(calls + [c], i) == if Succeeds(Run(calls), c) && i == c.index then c.val else LastSet(calls, i)
  {
    assert (calls + [c])[..|calls|] == calls;
  }
}
