/** Index registration and lock-free traversal of crypto/ex_data.cc.
  *
  * Writers run `CRYPTO_get_ex_new_index_ex`: they fill a private node, take the
  * class lock, link the node and publish it by storing `num_funcs`.  Readers run the
  * loop of `CRYPTO_free_ex_data` with no lock.  One step is one access to shared
  * memory; a run is any sequence of events, and an event that is not enabled
  * leaves the state alone.
  */
module ExData {
  import opened Basics
  import opened ExDataSlots

  const INT_MAX: nat := 0x7FFF_FFFF
  const U32: nat := 0x1_0000_0000

  /** What a caller registers; `freeFunc` is `None` for a NULL callback. */
  datatype Entry = Entry(argl: int, argp: int, freeFunc: Option<int>)

  /** A `CRYPTO_EX_DATA_FUNCS`; nodes are named by their position in the heap. */
  datatype Node = Node(entry: Entry, next: Option<nat>)

  /** The pointer a reader's `funcs` variable points at. */
  datatype Cell = Head | Next(node: nat)

  /** One invocation of a free callback; `ptr` is the object's value at the index. */
  datatype Call = Call(func: int, ptr: nat, index: int, argl: int, argp: int)

  datatype Pc =
    | Idle
    // CRYPTO_get_ex_new_index_ex, named by what it does next
    | Fill(node: nat, entry: Entry)
    | Lock(node: nat)
    | Load(node: nat)
    | Guard(node: nat, n: nat)
    | Link(node: nat, n: nat)
    | SetLast(node: nat, n: nat)
    | Publish(node: nat, n: nat)
    | Unlock(node: nat, n: nat)
    // CRYPTO_free_ex_data: `ad` is the object's values, `n` the snapshot, `i` the counter
    | Visit(ad: Stack, n: nat, i: nat, cell: Cell, calls: seq<Call>)
    | Advance(ad: Stack, n: nat, i: nat, cell: Cell, calls: seq<Call>)
    | Crashed

  datatype Registration = Registration(node: nat, index: int)

  datatype Traversal = Traversal(ad: Stack, n: nat, calls: seq<Call>)

  /** `order` lists the published nodes, `returned` the registrations whose call has
    * returned an index, `freed` the finished traversals. */
  datatype State = State(
    reserved: nat,
    heap: seq<Node>,
    head: Option<nat>,
    last: Option<nat>,
    numFuncs: nat,
    lock: Option<nat>,
    threads: seq<Pc>,
    order: seq<nat>,
    returned: seq<Registration>,
    freed: seq<Traversal>)

  /** `Register` may find malloc failing; its contents are then never allocated. */
  datatype Event =
    | Register(t: nat, entry: Entry, garbage: Node, mallocFails: bool)
    | Free(t: nat, ad: Stack)
    | Run(t: nat)

  predicate Initial(s: State) {
    && s.reserved < 256
    && s.head == None && s.last == None && s.numFuncs == 0 && s.lock == None
    && s.order == [] && s.returned == [] && s.freed == [] && s.heap == []
    && (forall t | 0 <= t < |s.threads| :: s.threads[t] == Idle)
  }

  // ----- the program

  function Goto(s: State, t: nat, pc: Pc): State
    requires t < |s.threads|
  {
    s.(threads := s.threads[t := pc])
  }

  function Deref(heap: seq<Node>, head: Option<nat>, c: Cell): Option<nat> {
    match c
    case Head => head
    case Next(m) => if m < |heap| then heap[m].next else None
  }

  function LinkNode(s: State, node: nat): State {
    if s.last == None then s.(head := Some(node))
    else if s.last.value < |s.heap| then
      s.(heap := s.heap[s.last.value := s.heap[s.last.value].(next := Some(node))])
    else s
  }

  /** `uint32_t` addition of one. */
  function Increment(n: nat): nat {
    if n + 1 < U32 then n + 1 else 0
  }

  function RunWriter(s: State, t: nat, pc: Pc): State
    requires t < |s.threads|
  {
    match pc
    case Fill(node, entry) =>
      if node < |s.heap| then Goto(s.(heap := s.heap[node := Node(entry, None)]), t, Lock(node)) else s
    case Lock(node) =>
      if s.lock == None then Goto(s.(lock := Some(t)), t, Load(node)) else s
    case Load(node) => Goto(s, t, Guard(node, s.numFuncs))
    case Guard(node, n) =>
      // On overflow: unlock and return -1.
      if n > INT_MAX - s.reserved then Goto(s.(lock := None), t, Idle) else Goto(s, t, Link(node, n))
    case Link(node, n) => Goto(LinkNode(s, node), t, SetLast(node, n))
    case SetLast(node, n) => Goto(s.(last := Some(node)), t, Publish(node, n))
    case Publish(node, n) =>
      Goto(s.(numFuncs := Increment(n), order := s.order + [node]), t, Unlock(node, n))
    case Unlock(node, n) =>
      Goto(s.(lock := None, returned := s.returned + [Registration(node, n + s.reserved)]), t, Idle)
    case _ => s
  }

  /** The callback made for node `m` at position `i`, if the node has one. */
  function Invoked(heap: seq<Node>, reserved: nat, ad: Stack, m: nat, i: nat): seq<Call> {
    if m < |heap| && heap[m].entry.freeFunc.Some? then
      var e := heap[m].entry;
      [Call(e.freeFunc.value, ValueAt(ad, i + reserved), i + reserved, e.argl, e.argp)]
    else []
  }

  function RunReader(s: State, t: nat, pc: Pc): State
    requires t < |s.threads|
  {
    match pc
    case Visit(ad, n, i, cell, calls) =>
      if i >= n then Goto(s.(freed := s.freed + [Traversal(ad, n, calls)]), t, Idle)
      else
        (match Deref(s.heap, s.head, cell)
         case None => Goto(s, t, Crashed)
         case Some(m) => Goto(s, t, Advance(ad, n, i, cell, calls + Invoked(s.heap, s.reserved, ad, m, i))))
    case Advance(ad, n, i, cell, calls) =>
      (match Deref(s.heap, s.head, cell)
       case None => Goto(s, t, Crashed)
       case Some(m) => Goto(s, t, Visit(ad, n, i + 1, Next(m), calls)))
    case _ => s
  }

  function Step(s: State, ev: Event): State {
    if ev.t >= |s.threads| then s
    else
      var pc := s.threads[ev.t];
      match ev
      case Register(t, entry, garbage, mallocFails) =>
        if pc == Idle && !mallocFails then
          Goto(s.(heap := s.heap + [garbage]), t, Fill(|s.heap|, entry))
        else s
      // Without a stack there is nothing to do.
      case Free(t, ad) => if pc == Idle && ad.Some? then Goto(s, t, Visit(ad, s.numFuncs, 0, Head, [])) else s
      case Run(t) => if pc.Visit? || pc.Advance? then RunReader(s, t, pc) else RunWriter(s, t, pc)
  }

  function Exec(s: State, evs: seq<Event>): State
    decreases |evs|
  {
    if evs == [] then s else Step(Exec(s, evs[..|evs| - 1]), evs[|evs| - 1])
  }

  // ----- the shape of the list

  /** The pointer that leads to the `i`th published node. */
  function CellAt(order: seq<nat>, i: nat): Cell
    requires i <= |order|
  {
    if i == 0 then Head else Next(order[i - 1])
  }

  /** The callbacks of the first `i` published nodes, in order. */
  function CallsOf(heap: seq<Node>, order: seq<nat>, reserved: nat, ad: Stack, i: nat): seq<Call>
    requires i <= |order|
  {
    if i == 0 then []
    else CallsOf(heap, order, reserved, ad, i - 1) + Invoked(heap, reserved, ad, order[i - 1], i - 1)
  }

  predicate HoldsLock(pc: Pc) {
    pc.Load? || pc.Guard? || pc.Link? || pc.SetLast? || pc.Publish? || pc.Unlock?
  }

  /** The thread's node is not yet counted in `num_funcs`. */
  predicate Private(pc: Pc) {
    pc.Fill? || pc.Lock? || pc.Load? || pc.Guard? || pc.Link? || pc.SetLast? || pc.Publish?
  }

  /** What the lock holder is doing. */
  function Holder(lock: Option<nat>, ts: seq<Pc>): Pc {
    if lock.Some? && lock.value < |ts| then ts[lock.value] else Idle
  }

  /** The `i`th pointer of the list leads to the `i`th published node. */
  predicate Leads(heap: seq<Node>, head: Option<nat>, order: seq<nat>, i: nat) {
    i < |order| && Deref(heap, head, CellAt(order, i)) == Some(order[i])
  }

  /** Following the published nodes yields `order`; past them lies at most the node the
    * lock holder has linked and not yet counted. */
  ghost predicate ListInv(heap: seq<Node>, head: Option<nat>, last: Option<nat>, order: seq<nat>, holder: Pc) {
    && (forall i | 0 <= i < |order| :: order[i] < |heap|)
    && (forall i, j | 0 <= i < j < |order| :: order[i] != order[j])
    && (forall i: nat | i < |order| :: Leads(heap, head, order, i))
    && Deref(heap, head, CellAt(order, |order|))
       == (if holder.SetLast? || holder.Publish? then Some(holder.node) else None)
    && last == (
         if holder.Publish? then Some(holder.node)
         else if order == [] then None else Some(order[|order| - 1]))
  }

  ghost predicate LockInv(lock: Option<nat>, ts: seq<Pc>) {
    && (lock.Some? ==> lock.value < |ts| && HoldsLock(ts[lock.value]))
    && (forall t | 0 <= t < |ts| :: HoldsLock(ts[t]) ==> lock == Some(t))
  }

  ghost predicate ReturnedInv(returned: seq<Registration>, order: seq<nat>, reserved: nat, holder: Pc) {
    && |order| == |returned| + (if holder.Unlock? then 1 else 0)
    && (forall k | 0 <= k < |returned| :: returned[k] == Registration(order[k], k + reserved))
  }

  ghost predicate WriterInv(heap: seq<Node>, order: seq<nat>, reserved: nat, pc: Pc) {
    && (Private(pc) ==> pc.node < |heap| && pc.node !in order)
    && (Private(pc) && !pc.Fill? ==> heap[pc.node].next == None)
    && (pc.Guard? || pc.Link? || pc.SetLast? || pc.Publish? ==> pc.n == |order|)
    && (pc.Link? || pc.SetLast? || pc.Publish? ==> pc.n + reserved <= INT_MAX)
    && (pc.Unlock? ==> |order| == pc.n + 1 && order[pc.n] == pc.node)
  }

  ghost predicate ReaderInv(heap: seq<Node>, order: seq<nat>, reserved: nat, pc: Pc) {
    && !pc.Crashed?
    && (pc.Visit? ==>
          && pc.i <= pc.n <= |order| && pc.cell == CellAt(order, pc.i)
          && pc.calls == CallsOf(heap, order, reserved, pc.ad, pc.i))
    && (pc.Advance? ==>
          && pc.i < pc.n <= |order| && pc.cell == CellAt(order, pc.i)
          && pc.calls == CallsOf(heap, order, reserved, pc.ad, pc.i + 1))
  }

  ghost predicate ThreadInv(heap: seq<Node>, order: seq<nat>, reserved: nat, pc: Pc) {
    WriterInv(heap, order, reserved, pc) && ReaderInv(heap, order, reserved, pc)
  }

  ghost predicate ThreadsInv(heap: seq<Node>, order: seq<nat>, reserved: nat, ts: seq<Pc>) {
    forall t | 0 <= t < |ts| :: ThreadInv(heap, order, reserved, ts[t])
  }

  ghost predicate Apart(ts: seq<Pc>) {
    forall t, u | 0 <= t < u < |ts| :: Private(ts[t]) && Private(ts[u]) ==> ts[t].node != ts[u].node
  }

  ghost predicate FreedInv(heap: seq<Node>, order: seq<nat>, reserved: nat, freed: seq<Traversal>) {
    forall k | 0 <= k < |freed| ::
      freed[k].n <= |order| && freed[k].calls == CallsOf(heap, order, reserved, freed[k].ad, freed[k].n)
  }

  ghost predicate Inv(s: State) {
    && s.reserved < 256
    && |s.order| == s.numFuncs && s.numFuncs + s.reserved <= INT_MAX + 1
    && ListInv(s.heap, s.head, s.last, s.order, Holder(s.lock, s.threads))
    && LockInv(s.lock, s.threads)
    && ReturnedInv(s.returned, s.order, s.reserved, Holder(s.lock, s.threads))
    && ThreadsInv(s.heap, s.order, s.reserved, s.threads)
    && Apart(s.threads)
    && FreedInv(s.heap, s.order, s.reserved, s.freed)
  }

  // ----- preservation

  /** The published list only grows, and published entries never change. */
  ghost predicate Grows(heap: seq<Node>, order: seq<nat>, heap': seq<Node>, order': seq<nat>) {
    && |heap| <= |heap'| && |order| <= |order'|
    && (forall k | 0 <= k < |order| :: order[k] == order'[k] && order[k] < |heap|)
    && (forall k | 0 <= k < |order| :: heap'[order[k]].entry == heap[order[k]].entry)
  }

  lemma {:induction false} CallsStable(heap: seq<Node>, order: seq<nat>, heap': seq<Node>, order': seq<nat>,
                                       reserved: nat, ad: Stack, i: nat)
    requires Grows(heap, order, heap', order') && i <= |order|
    ensures CallsOf(heap', order', reserved, ad, i) == CallsOf(heap, order, reserved, ad, i)
  {
    if i > 0 { CallsStable(heap, order, heap', order', reserved, ad, i - 1); }
  }

  lemma FreedStable(heap: seq<Node>, order: seq<nat>, heap': seq<Node>, order': seq<nat>,
                    reserved: nat, freed: seq<Traversal>)
    requires Grows(heap, order, heap', order') && FreedInv(heap, order, reserved, freed)
    ensures FreedInv(heap', order', reserved, freed)
  {
    forall k | 0 <= k < |freed|
      ensures freed[k].n <= |order'| && freed[k].calls == CallsOf(heap', order', reserved, freed[k].ad, freed[k].n)
    {
      CallsStable(heap, order, heap', order', reserved, freed[k].ad, freed[k].n);
    }
  }

  lemma ReaderStable(heap: seq<Node>, order: seq<nat>, heap': seq<Node>, order': seq<nat>, reserved: nat, pc: Pc)
    requires Grows(heap, order, heap', order') && ReaderInv(heap, order, reserved, pc)
    ensures ReaderInv(heap', order', reserved, pc)
  {
    if pc.Visit? {
      CallsStable(heap, order, heap', order', reserved, pc.ad, pc.i);
    } else if pc.Advance? {
      CallsStable(heap, order, heap', order', reserved, pc.ad, pc.i + 1);
    }
  }

  /** A thread that moves to a sound state leaves all threads sound, when the others'
    * nodes are untouched and only published nodes join the order. */
  lemma ThreadsMove(heap: seq<Node>, order: seq<nat>, heap': seq<Node>, order': seq<nat>, reserved: nat,
                    ts: seq<Pc>, t: nat, pc: Pc)
    requires ThreadsInv(heap, order, reserved, ts) && t < |ts| && Grows(heap, order, heap', order')
    requires ThreadInv(heap', order', reserved, pc)
    requires order' == order || (forall u | 0 <= u < |ts| && u != t :: !HoldsLock(ts[u]))
    requires forall u | 0 <= u < |ts| && u != t && Private(ts[u]) ::
               ts[u].node < |heap| ==> heap'[ts[u].node] == heap[ts[u].node] && (ts[u].node in order' ==> ts[u].node in order)
    ensures ThreadsInv(heap', order', reserved, ts[t := pc])
  {
    var ts' := ts[t := pc];
    forall u | 0 <= u < |ts'| ensures ThreadInv(heap', order', reserved, ts'[u]) {
      if u != t {
        assert ThreadInv(heap, order, reserved, ts[u]);
        ReaderStable(heap, order, heap', order', reserved, ts[u]);
      }
    }
  }

  lemma ApartMove(ts: seq<Pc>, t: nat, pc: Pc)
    requires Apart(ts) && t < |ts|
    requires Private(pc) ==>
               forall u | 0 <= u < |ts| && u != t && Private(ts[u]) :: ts[u].node != pc.node
    ensures Apart(ts[t := pc])
  {
  }

  lemma ApartFrom(ts: seq<Pc>, t: nat, u: nat)
    requires Apart(ts) && t < |ts| && u < |ts| && u != t && Private(ts[t]) && Private(ts[u])
    ensures ts[t].node != ts[u].node
  {
  }

  lemma ListFrame(heap: seq<Node>, heap': seq<Node>, head: Option<nat>, last: Option<nat>, order: seq<nat>, holder: Pc)
    requires ListInv(heap, head, last, order, holder) && |heap| <= |heap'|
    requires forall i | 0 <= i < |order| :: heap'[order[i]] == heap[order[i]]
    ensures ListInv(heap', head, last, order, holder)
  {
    forall i: nat | i < |order| ensures Leads(heap', head, order, i) {
      assert Leads(heap, head, order, i);
    }
  }

  lemma OrderInHeap(heap: seq<Node>, head: Option<nat>, last: Option<nat>, order: seq<nat>, holder: Pc)
    requires ListInv(heap, head, last, order, holder)
    ensures forall i | 0 <= i < |order| :: order[i] < |heap|
  {
  }

  /** A step of a thread without the lock that writes no node but its own. */
  lemma FreeMove(s: State, heap: seq<Node>, t: nat, pc: Pc)
    requires Inv(s) && t < |s.threads| && |s.heap| <= |heap|
    requires !HoldsLock(s.threads[t]) && !HoldsLock(pc) && ThreadInv(heap, s.order, s.reserved, pc)
    requires forall m | 0 <= m < |s.heap| :: heap[m] == s.heap[m] || (Private(pc) && m == pc.node)
    requires Private(pc) ==> pc.node !in s.order
    requires Private(pc) ==>
               forall u | 0 <= u < |s.threads| && u != t && Private(s.threads[u]) :: s.threads[u].node != pc.node
    ensures Inv(Goto(s.(heap := heap), t, pc))
  {
    hide ListInv, FreedInv, ThreadsInv, Apart, ReturnedInv, ThreadInv;
    var s' := Goto(s.(heap := heap), t, pc);
    assert Holder(s'.lock, s'.threads) == Holder(s.lock, s.threads);
    OrderInHeap(s.heap, s.head, s.last, s.order, Holder(s.lock, s.threads));
    ListFrame(s.heap, heap, s.head, s.last, s.order, Holder(s.lock, s.threads));
    FreedStable(s.heap, s.order, heap, s.order, s.reserved, s.freed);
    ThreadsMove(s.heap, s.order, heap, s.order, s.reserved, s.threads, t, pc);
    ApartMove(s.threads, t, pc);
  }

  lemma LockMove(lock: Option<nat>, ts: seq<Pc>, t: nat, pc: Pc, lock': Option<nat>)
    requires LockInv(lock, ts) && t < |ts|
    requires lock == None || lock == Some(t)
    requires lock' == if HoldsLock(pc) then Some(t) else None
    ensures LockInv(lock', ts[t := pc])
    ensures Holder(lock', ts[t := pc]) == if HoldsLock(pc) then pc else Idle
    ensures Holder(lock, ts) == if HoldsLock(ts[t]) then ts[t] else Idle
  {
  }

  /** What a lock holder may do to memory: set the `next` field of the last published
    * node, or count its own node. */
  ghost predicate HolderWrites(s: State, s': State, own: Pc) {
    && (s'.heap == s.heap || (own.Link? && (s.last.Some? ==> s.last.value in s.order) && s'.heap == LinkNode(s, own.node).heap))
    && (s'.order == s.order || (own.Publish? && s'.order == s.order + [own.node]))
    && s'.reserved == s.reserved && s'.freed == s.freed
  }

  lemma HolderGrows(s: State, s': State, t: nat)
    requires ThreadsInv(s.heap, s.order, s.reserved, s.threads) && Apart(s.threads) && t < |s.threads|
    requires HolderWrites(s, s', s.threads[t])
    requires forall i | 0 <= i < |s.order| :: s.order[i] < |s.heap|
    ensures Grows(s.heap, s.order, s'.heap, s'.order)
    ensures forall u | 0 <= u < |s.threads| && u != t && Private(s.threads[u]) ::
              var m := s.threads[u].node;
              m < |s.heap| ==> s'.heap[m] == s.heap[m] && (m in s'.order ==> m in s.order)
  {
    forall u | 0 <= u < |s.threads| && u != t && Private(s.threads[u])
      ensures var m := s.threads[u].node;
              m < |s.heap| ==> s'.heap[m] == s.heap[m] && (m in s'.order ==> m in s.order)
    {
      assert ThreadInv(s.heap, s.order, s.reserved, s.threads[u]);
      if Private(s.threads[t]) { ApartFrom(s.threads, t, u); }
    }
  }

  /** A step of the lock holder, or of the thread taking the lock.  The caller shows
    * what becomes of the list and of the log of returned indices. */
  lemma LockedMove(s: State, s': State, t: nat, pc: Pc)
    requires Inv(s) && t < |s.threads| && (Private(s.threads[t]) || s.threads[t].Unlock?)
    requires s.lock == None || s.lock == Some(t)
    requires HolderWrites(s, s', s.threads[t])
    requires s'.threads == s.threads[t := pc]
    requires s'.lock == if HoldsLock(pc) then Some(t) else None
    requires Private(pc) ==> Private(s.threads[t]) && pc.node == s.threads[t].node
    requires !pc.Visit? && !pc.Advance? && !pc.Crashed? && WriterInv(s'.heap, s'.order, s.reserved, pc)
    requires |s'.order| == s'.numFuncs && s'.numFuncs + s.reserved <= INT_MAX + 1
    requires ListInv(s'.heap, s'.head, s'.last, s'.order, if HoldsLock(pc) then pc else Idle)
    requires ReturnedInv(s'.returned, s'.order, s.reserved, if HoldsLock(pc) then pc else Idle)
    ensures Inv(s')
  {
    OrderInHeap(s.heap, s.head, s.last, s.order, Holder(s.lock, s.threads));
    hide ListInv, ReturnedInv, FreedInv;
    LockMove(s.lock, s.threads, t, pc, s'.lock);
    HolderGrows(s, s', t);
    FreedStable(s.heap, s.order, s'.heap, s'.order, s.reserved, s.freed);
    ThreadsMove(s.heap, s.order, s'.heap, s'.order, s.reserved, s.threads, t, pc);
    ApartMove(s.threads, t, pc);
  }

  lemma PublishedReachable(s: State, t: nat)
    requires Inv(s) && t < |s.threads|
    ensures var pc := s.threads[t];
            && ThreadInv(s.heap, s.order, s.reserved, pc)
            && (pc.Visit? && pc.i < pc.n ==> Deref(s.heap, s.head, pc.cell) == Some(s.order[pc.i]))
            && (pc.Advance? ==> Deref(s.heap, s.head, pc.cell) == Some(s.order[pc.i]))
            && |s.order| == s.numFuncs
  {
    var pc := s.threads[t];
    assert ThreadInv(s.heap, s.order, s.reserved, pc);
    if pc.Visit? || pc.Advance? {
      assert pc.i < pc.n ==> Leads(s.heap, s.head, s.order, pc.i);
    }
  }

  lemma WritersApart(s: State, t: nat, u: nat)
    requires Inv(s) && t < |s.threads| && u < |s.threads| && t != u
    ensures !(HoldsLock(s.threads[t]) && HoldsLock(s.threads[u]))
    ensures Private(s.threads[t]) && Private(s.threads[u]) ==> s.threads[t].node != s.threads[u].node
  {
    if Private(s.threads[t]) && Private(s.threads[u]) {
      ApartFrom(s.threads, t, u);
    }
  }

  // ----- each step of a writer

  lemma RegisterInv(s: State, ev: Event)
    requires Inv(s) && ev.Register?
    ensures Inv(Step(s, ev))
  {
    if Step(s, ev) != s {
      assert forall u | 0 <= u < |s.threads| :: ThreadInv(s.heap, s.order, s.reserved, s.threads[u]);
      OrderInHeap(s.heap, s.head, s.last, s.order, Holder(s.lock, s.threads));
      hide Inv;
      FreeMove(s, s.heap + [ev.garbage], ev.t, Fill(|s.heap|, ev.entry));
    }
  }

  lemma FillInv(s: State, t: nat)
    requires Inv(s) && t < |s.threads| && s.threads[t].Fill?
    ensures Inv(Step(s, Run(t)))
  {
    hide Inv;
    var pc := s.threads[t];
    PublishedReachable(s, t);
    forall u | 0 <= u < |s.threads| && u != t && Private(s.threads[u]) ensures s.threads[u].node != pc.node {
      WritersApart(s, t, u);
    }
    FreeMove(s, s.heap[pc.node := Node(pc.entry, None)], t, Lock(pc.node));
  }

  predicate Linking(pc: Pc) {
    pc.SetLast? || pc.Publish? || pc.Unlock?
  }

  /** Nothing is linked before `Link`, so the list looks the same whoever holds the lock. */
  lemma NotLinking(s: State, h: Pc, h': Pc)
    requires ListInv(s.heap, s.head, s.last, s.order, h) && ReturnedInv(s.returned, s.order, s.reserved, h)
    requires !Linking(h) && !Linking(h')
    ensures ListInv(s.heap, s.head, s.last, s.order, h') && ReturnedInv(s.returned, s.order, s.reserved, h')
  {
  }

  lemma HolderIs(s: State, t: nat)
    requires Inv(s) && t < |s.threads| && (HoldsLock(s.threads[t]) || s.lock == None)
    ensures s.lock == None || s.lock == Some(t)
    ensures Holder(s.lock, s.threads) == if HoldsLock(s.threads[t]) then s.threads[t] else Idle
    ensures ListInv(s.heap, s.head, s.last, s.order, Holder(s.lock, s.threads))
    ensures ReturnedInv(s.returned, s.order, s.reserved, Holder(s.lock, s.threads))
    ensures WriterInv(s.heap, s.order, s.reserved, s.threads[t])
    ensures forall i | 0 <= i < |s.order| :: s.order[i] < |s.heap|
    ensures |s.order| == s.numFuncs && s.numFuncs + s.reserved <= INT_MAX + 1
  {
  }

  /** Taking the lock, loading the count and testing it link nothing. */
  lemma GuardInv(s: State, t: nat)
    requires Inv(s) && t < |s.threads| && (s.threads[t].Lock? || s.threads[t].Load? || s.threads[t].Guard?)
    ensures Inv(Step(s, Run(t)))
  {
    hide Inv;
    var s' := Step(s, Run(t));
    if s' != s {
      var pc, pc' := s.threads[t], s'.threads[t];
      HolderIs(s, t);
      NotLinking(s, Holder(s.lock, s.threads), if HoldsLock(pc') then pc' else Idle);
      hide ListInv, ReturnedInv;
      assert HolderWrites(s, s', pc);
      LockedMove(s, s', t, pc');
    }
  }

  lemma LinkInv(s: State, t: nat)
    requires Inv(s) && t < |s.threads| && s.threads[t].Link?
    ensures Inv(Step(s, Run(t)))
  {
    hide Inv, ListInv, LinkNode, HolderWrites, WriterInv;
    var pc := s.threads[t];
    LinkNodeFrame(s, pc.node);
    var s' := Goto(LinkNode(s, pc.node), t, SetLast(pc.node, pc.n));
    assert Step(s, Run(t)) == s';
    hide Step;
    HolderIs(s, t);
    LinkParts(s, pc, s');
    LockedMove(s, s', t, SetLast(pc.node, pc.n));
  }

  lemma LinkNodeFrame(s: State, node: nat)
    ensures var l := LinkNode(s, node); l == s.(heap := l.heap, head := l.head)
  {
  }

  lemma LinkParts(s: State, pc: Pc, s': State)
    requires pc.Link? && ListInv(s.heap, s.head, s.last, s.order, pc) && WriterInv(s.heap, s.order, s.reserved, pc)
    requires s'.heap == LinkNode(s, pc.node).heap && s'.head == LinkNode(s, pc.node).head
    requires s'.order == s.order && s'.last == s.last && s'.reserved == s.reserved && s'.freed == s.freed
    ensures HolderWrites(s, s', pc)
    ensures ListInv(s'.heap, s'.head, s'.last, s.order, SetLast(pc.node, pc.n))
    ensures WriterInv(s'.heap, s.order, s.reserved, SetLast(pc.node, pc.n))
  {
    ListLink(s.heap, s.head, s.last, s.order, pc, s');
    assert s.last.Some? ==> s.last.value in s.order;
    hide ListInv;
  }

  lemma ListLink(heap: seq<Node>, head: Option<nat>, last: Option<nat>, order: seq<nat>, pc: Pc, s': State)
    requires pc.Link? && ListInv(heap, head, last, order, pc) && s'.last == last && s'.order == order
    requires s'.heap == (if order == [] then heap else heap[order[|order| - 1] := heap[order[|order| - 1]].(next := Some(pc.node))])
    requires s'.head == if order == [] then Some(pc.node) else head
    ensures ListInv(s'.heap, s'.head, last, order, SetLast(pc.node, pc.n))
  {
    forall i: nat | i < |order| ensures Leads(s'.heap, s'.head, order, i) {
      assert Leads(heap, head, order, i);
    }
  }

  lemma SetLastInv(s: State, t: nat)
    requires Inv(s) && t < |s.threads| && s.threads[t].SetLast?
    ensures Inv(Step(s, Run(t)))
  {
    hide Inv;
    var pc := s.threads[t];
    var s' := Goto(s.(last := Some(pc.node)), t, Publish(pc.node, pc.n));
    assert Step(s, Run(t)) == s';
    hide Step;
    HolderIs(s, t);
    assert ListInv(s.heap, s.head, Some(pc.node), s.order, Publish(pc.node, pc.n));
    hide ListInv;
    LockedMove(s, s', t, Publish(pc.node, pc.n));
  }

  lemma PublishInv(s: State, t: nat)
    requires Inv(s) && t < |s.threads| && s.threads[t].Publish?
    ensures Inv(Step(s, Run(t)))
  {
    hide Inv;
    var pc := s.threads[t];
    HolderIs(s, t);
    ListPublish(s.heap, s.head, s.last, s.order, pc);
    ReturnedPublish(s.returned, s.order, s.reserved, pc);
    hide ListInv, ReturnedInv;
    var s' := Goto(s.(numFuncs := pc.n + 1, order := s.order + [pc.node]), t, Unlock(pc.node, pc.n));
    assert Step(s, Run(t)) == s';
    hide Step;
    LockedMove(s, s', t, Unlock(pc.node, pc.n));
  }

  lemma ReturnedPublish(returned: seq<Registration>, order: seq<nat>, reserved: nat, pc: Pc)
    requires pc.Publish? && ReturnedInv(returned, order, reserved, pc)
    ensures ReturnedInv(returned, order + [pc.node], reserved, Unlock(pc.node, pc.n))
  {
  }

  lemma ListPublish(heap: seq<Node>, head: Option<nat>, last: Option<nat>, order: seq<nat>, pc: Pc)
    requires pc.Publish? && ListInv(heap, head, last, order, pc)
    requires pc.node < |heap| && pc.node !in order && heap[pc.node].next == None
    ensures ListInv(heap, head, last, order + [pc.node], Unlock(pc.node, pc.n))
  {
    var order' := order + [pc.node];
    forall i: nat | i < |order'| ensures Leads(heap, head, order', i) {
      assert CellAt(order', i) == CellAt(order, i);
      assert i < |order| ==> Leads(heap, head, order, i);
    }
  }

  lemma UnlockInv(s: State, t: nat)
    requires Inv(s) && t < |s.threads| && s.threads[t].Unlock?
    ensures Inv(Step(s, Run(t)))
  {
    hide Inv;
    var s' := Step(s, Run(t));
    var pc := s.threads[t];
    HolderIs(s, t);
    ListUnlock(s.heap, s.head, s.last, s.order, pc);
    ReturnedUnlock(s.returned, s.order, s.reserved, pc);
    hide ListInv, ReturnedInv;
    LockedMove(s, s', t, Idle);
  }

  lemma ListUnlock(heap: seq<Node>, head: Option<nat>, last: Option<nat>, order: seq<nat>, pc: Pc)
    requires pc.Unlock? && ListInv(heap, head, last, order, pc)
    ensures ListInv(heap, head, last, order, Idle)
  {
  }

  lemma ReturnedUnlock(returned: seq<Registration>, order: seq<nat>, reserved: nat, pc: Pc)
    requires pc.Unlock? && |order| == pc.n + 1 && order[pc.n] == pc.node && ReturnedInv(returned, order, reserved, pc)
    ensures ReturnedInv(returned + [Registration(pc.node, pc.n + reserved)], order, reserved, Idle)
  {
  }

  // ----- each step of a reader

  lemma FreeInv(s: State, t: nat, ad: Stack)
    requires Inv(s) && t < |s.threads|
    ensures Inv(Step(s, Free(t, ad)))
  {
    hide Inv;
    PublishedReachable(s, t);
    if s.threads[t] == Idle && ad.Some? {
      FreeMove(s, s.heap, t, Visit(ad, s.numFuncs, 0, Head, []));
    }
  }

  lemma ReaderStepInv(s: State, t: nat)
    requires Inv(s) && t < |s.threads| && (s.threads[t].Visit? || s.threads[t].Advance?)
    ensures Inv(Step(s, Run(t)))
  {
    hide Inv;
    var s' := Step(s, Run(t));
    var pc := s.threads[t];
    PublishedReachable(s, t);
    if pc.Visit? && pc.i >= pc.n {
      FreeMove(s, s.heap, t, Idle);
      FreedMore(Goto(s, t, Idle), Traversal(pc.ad, pc.n, pc.calls));
    } else {
      FreeMove(s, s.heap, t, s'.threads[t]);
    }
  }

  lemma FreedMore(s: State, tr: Traversal)
    requires Inv(s) && tr.n <= |s.order| && tr.calls == CallsOf(s.heap, s.order, s.reserved, tr.ad, tr.n)
    ensures Inv(s.(freed := s.freed + [tr]))
  {
    hide ListInv, LockInv, ReturnedInv, ThreadsInv, Apart;
  }

  // ----- every run

  lemma StepInv(s: State, ev: Event)
    requires Inv(s)
    ensures Inv(Step(s, ev))
  {
    hide Inv;
    if ev.t < |s.threads| {
      match ev
      case Register(_, _, _, _) => RegisterInv(s, ev);
      case Free(t, ad) => FreeInv(s, t, ad);
      case Run(t) =>
        match s.threads[t] {
          case Fill(_, _) => FillInv(s, t);
          case Link(_, _) => LinkInv(s, t);
          case SetLast(_, _) => SetLastInv(s, t);
          case Publish(_, _) => PublishInv(s, t);
          case Unlock(_, _) => UnlockInv(s, t);
          case Visit(_, _, _, _, _) => ReaderStepInv(s, t);
          case Advance(_, _, _, _, _) => ReaderStepInv(s, t);
          case Idle =>
          case Crashed =>
          case _ => GuardInv(s, t);
        }
    }
  }

  lemma {:induction false} ExecInv(s: State, evs: seq<Event>)
    requires Initial(s)
    ensures Inv(Exec(s, evs))
    decreases |evs|
  {
    if evs != [] {
      ExecInv(s, evs[..|evs| - 1]);
      StepInv(Exec(s, evs[..|evs| - 1]), evs[|evs| - 1]);
    }
  }

  // ----- no data race

  /** The memory that is not atomic. */
  datatype Location = HeadField | LastField | NextField(node: nat) | EntryFields(node: nat)

  function CellLocation(c: Cell): Location {
    match c
    case Head => HeadField
    case Next(m) => NextField(m)
  }

  /** What a thread's next step reads outside `num_funcs`. */
  function Reads(s: State, pc: Pc): set<Location> {
    if pc.Link? then {LastField}
    else if pc.Advance? then {CellLocation(pc.cell)}
    else if pc.Visit? && pc.i < pc.n then
      var target := Deref(s.heap, s.head, pc.cell);
      {CellLocation(pc.cell)} + if target.Some? then {EntryFields(target.value)} else {}
    else {}
  }

  /** What a thread's next step writes outside `num_funcs`. */
  function Writes(s: State, pc: Pc): set<Location> {
    if pc.Fill? then {EntryFields(pc.node), NextField(pc.node)}
    else if pc.Link? then {if s.last == None then HeadField else NextField(s.last.value)}
    else if pc.SetLast? then {LastField}
    else {}
  }

  predicate Published(s: State, l: Location) {
    match l
    case HeadField => s.numFuncs > 0
    case LastField => false
    case NextField(m) => |s.order| > 0 && m in s.order[..|s.order| - 1]
    case EntryFields(m) => m in s.order
  }

  /** A writer touches nothing published: only its own node, or, with the lock, the end of the list. */
  lemma WriterTouches(s: State, t: nat)
    requires Inv(s) && t < |s.threads|
    ensures var pc := s.threads[t];
            forall l | l in Writes(s, pc) ::
              && !Published(s, l)
              && (pc.Fill? ==> (l.NextField? || l.EntryFields?) && l.node == pc.node && pc.node !in s.order)
              && (pc.Link? ==> l == HeadField || (l.NextField? && l.node in s.order))
  {
    var pc := s.threads[t];
    PublishedReachable(s, t);
    if pc.Link? {
      HolderIs(s, t);
      if s.order != [] {
        LastIsNotInner(s.heap, s.head, s.last, s.order, pc);
      }
    }
  }

  lemma LastIsNotInner(heap: seq<Node>, head: Option<nat>, last: Option<nat>, order: seq<nat>, holder: Pc)
    requires ListInv(heap, head, last, order, holder) && order != [] && holder.Link?
    ensures last == Some(order[|order| - 1]) && order[|order| - 1] !in order[..|order| - 1]
  {
  }

  lemma ReaderSeesPublished(s: State, t: nat)
    requires Inv(s) && t < |s.threads| && (s.threads[t].Visit? || s.threads[t].Advance?)
    ensures forall l | l in Reads(s, s.threads[t]) :: Published(s, l)
  {
    var pc := s.threads[t];
    PublishedReachable(s, t);
    assert |s.order| == s.numFuncs;
    hide Inv, CallsOf;
    if pc.i < pc.n && pc.i > 0 {
      assert s.order[pc.i - 1] == s.order[..|s.order| - 1][pc.i - 1];
    }
  }

  /** In no interleaving can one thread write a non-atomic location that another is about
    * to read or write.  A reader follows only the head pointer and the links between
    * nodes already counted, and never dereferences NULL. */
  lemma NoDataRace(s: State, evs: seq<Event>, t: nat, u: nat)
    requires Initial(s) && t < |Exec(s, evs).threads| && u < |Exec(s, evs).threads| && t != u
    ensures var s' := Exec(s, evs);
            Writes(s', s'.threads[t]) !! (Reads(s', s'.threads[u]) + Writes(s', s'.threads[u]))
    ensures var s' := Exec(s, evs);
            var pc := s'.threads[t];
            && pc != Crashed
            && (pc.Visit? || pc.Advance? ==> forall l | l in Reads(s', pc) :: Published(s', l))
  {
    ExecInv(s, evs);
    var s' := Exec(s, evs);
    hide Inv;
    PublishedReachable(s', t);
    WriterTouches(s', t);
    WriterTouches(s', u);
    WritersApart(s', t, u);
    if s'.threads[t].Visit? || s'.threads[t].Advance? { ReaderSeesPublished(s', t); }
    if s'.threads[u].Visit? || s'.threads[u].Advance? { ReaderSeesPublished(s', u); }
    hide Published;
  }

  // ----- readers see a prefix of the registrations

  /** Once published, an entry keeps its position and its contents. */
  lemma {:induction false} PublishedIsStable(s: State, evs: seq<Event>, more: seq<Event>)
    requires Initial(s)
    ensures var a, b := Exec(s, evs), Exec(s, evs + more);
            Grows(a.heap, a.order, b.heap, b.order)
    decreases |more|
  {
    hide Inv, Step, Grows, Initial;
    if more == [] {
      assert evs + more == evs;
      ExecInv(s, evs);
      GrowsReflexive(Exec(s, evs));
    } else {
      var n := |more| - 1;
      var a, mid := Exec(s, evs), Exec(s, evs + more[..n]);
      PublishedIsStable(s, evs, more[..n]);
      ExecInv(s, evs + more[..n]);
      StepGrows(mid, more[n]);
      var b := Step(mid, more[n]);
      GrowsTransitive(a.heap, a.order, mid.heap, mid.order, b.heap, b.order);
      assert (evs + more)[..|evs + more| - 1] == evs + more[..n];
    }
  }

  lemma GrowsReflexive(s: State)
    requires Inv(s)
    ensures Grows(s.heap, s.order, s.heap, s.order)
  {
    OrderInHeap(s.heap, s.head, s.last, s.order, Holder(s.lock, s.threads));
    hide Inv;
  }

  lemma GrowsTransitive(h1: seq<Node>, o1: seq<nat>, h2: seq<Node>, o2: seq<nat>, h3: seq<Node>, o3: seq<nat>)
    requires Grows(h1, o1, h2, o2) && Grows(h2, o2, h3, o3)
    ensures Grows(h1, o1, h3, o3)
  {
    forall k | 0 <= k < |o1| ensures o1[k] == o3[k] && h3[o1[k]].entry == h1[o1[k]].entry {
      assert o1[k] == o2[k];
    }
  }

  lemma StepGrows(s: State, ev: Event)
    requires Inv(s)
    ensures var s' := Step(s, ev); Grows(s.heap, s.order, s'.heap, s'.order)
  {
    GrowsReflexive(s);
    if ev.t < |s.threads| {
      PublishedReachable(s, ev.t);
      hide Inv, ReaderInv;
      if ev.Run? && !s.threads[ev.t].Visit? && !s.threads[ev.t].Advance? {
        WriterGrows(s, ev.t);
      }
    }
  }

  lemma WriterGrows(s: State, t: nat)
    requires t < |s.threads| && Grows(s.heap, s.order, s.heap, s.order)
    requires WriterInv(s.heap, s.order, s.reserved, s.threads[t])
    ensures var s' := RunWriter(s, t, s.threads[t]); Grows(s.heap, s.order, s'.heap, s'.order)
  {
    var pc := s.threads[t];
    var s' := RunWriter(s, t, pc);
    if pc.Fill? {
      assert s'.order == s.order && s'.heap == s.heap[pc.node := Node(pc.entry, None)];
    } else if pc.Link? {
      assert s'.order == s.order && s'.heap == LinkNode(s, pc.node).heap;
    } else {
      assert s'.heap == s.heap && (s'.order == s.order || s'.order == s.order + [pc.node]);
    }
    hide RunWriter;
  }

  /** `c` is the callback of one of the first `i` entries, with the object's value at its index. */
  ghost predicate IsCallback(heap: seq<Node>, order: seq<nat>, reserved: nat, ad: Stack, i: nat, c: Call)
    requires i <= |order|
  {
    && reserved <= c.index < i + reserved
    && c.ptr == ValueAt(ad, c.index)
    && [c] == Invoked(heap, reserved, ad, order[c.index - reserved], c.index - reserved)
  }

  /** The calls carry increasing indices, and each is the callback of the entry at its index,
    * with the object's value at that index. */
  lemma {:induction false} CallsInOrder(heap: seq<Node>, order: seq<nat>, reserved: nat, ad: Stack, i: nat)
    requires i <= |order|
    ensures var calls := CallsOf(heap, order, reserved, ad, i);
            && (forall a, b | 0 <= a < b < |calls| :: calls[a].index < calls[b].index)
            && (forall c | c in calls :: IsCallback(heap, order, reserved, ad, i, c))
  {
    if i > 0 {
      CallsInOrder(heap, order, reserved, ad, i - 1);
      NextCallback(heap, order, reserved, ad, i);
      EarlierCallbacks(heap, order, reserved, ad, i, CallsOf(heap, order, reserved, ad, i - 1));
      hide CallsOf, Invoked, IsCallback;
    }
  }

  lemma EarlierCallbacks(heap: seq<Node>, order: seq<nat>, reserved: nat, ad: Stack, i: nat, calls: seq<Call>)
    requires 0 < i <= |order| && forall c | c in calls :: IsCallback(heap, order, reserved, ad, i - 1, c)
    ensures forall c | c in calls :: IsCallback(heap, order, reserved, ad, i, c)
    ensures forall a | 0 <= a < |calls| :: calls[a].index < i - 1 + reserved
  {
    forall a | 0 <= a < |calls| ensures calls[a].index < i - 1 + reserved {
      assert calls[a] in calls;
    }
  }

  lemma NextCallback(heap: seq<Node>, order: seq<nat>, reserved: nat, ad: Stack, i: nat)
    requires 0 < i <= |order|
    ensures var more := Invoked(heap, reserved, ad, order[i - 1], i - 1);
            |more| <= 1 && (more != [] ==>
              more[0].index == i - 1 + reserved && IsCallback(heap, order, reserved, ad, i, more[0]))
    ensures CallsOf(heap, order, reserved, ad, i)
         == CallsOf(heap, order, reserved, ad, i - 1) + Invoked(heap, reserved, ad, order[i - 1], i - 1)
  {
  }

  /** No non-NULL callback among the first `i` entries is missed. */
  lemma {:induction false} CallsComplete(heap: seq<Node>, order: seq<nat>, reserved: nat, ad: Stack, i: nat, k: nat)
    requires k < i <= |order| && forall j | 0 <= j < |order| :: order[j] < |heap|
    requires heap[order[k]].entry.freeFunc.Some?
    ensures Invoked(heap, reserved, ad, order[k], k)[0] in CallsOf(heap, order, reserved, ad, i)
  {
    if k < i - 1 { CallsComplete(heap, order, reserved, ad, i - 1, k); }
  }

  /** Every finished traversal made exactly the calls of the first `n` registered entries,
    * `n` being its snapshot of the count; every index fits in `int`, and every callback gets
    * the object's value at its index. */
  lemma TraversalExact(s: State, evs: seq<Event>, k: nat)
    requires Initial(s) && k < |Exec(s, evs).freed|
    ensures var s' := Exec(s, evs);
            var tr := s'.freed[k];
            && tr.n <= |s'.order| == s'.numFuncs
            && tr.calls == CallsOf(s'.heap, s'.order, s.reserved, tr.ad, tr.n)
            && (forall c | c in tr.calls :: 0 <= c.index <= INT_MAX && c.ptr == ValueAt(tr.ad, c.index))
  {
    ExecInv(s, evs);
    ReservedFixed(s, evs);
    var s' := Exec(s, evs);
    OrderInHeap(s'.heap, s'.head, s'.last, s'.order, Holder(s'.lock, s'.threads));
    var tr := s'.freed[k];
    CallsInOrder(s'.heap, s'.order, s.reserved, tr.ad, tr.n);
    hide CallsOf, Exec;
    forall c | c in tr.calls ensures 0 <= c.index <= INT_MAX && c.ptr == ValueAt(tr.ad, c.index) {
      assert IsCallback(s'.heap, s'.order, s.reserved, tr.ad, tr.n, c);
    }
  }

  /** So a callback is handed the value that the object's owner last stored under the index. */
  lemma CallbackGetsLastSet(s: State, evs: seq<Event>, k: nat, sets: seq<SetCall>)
    requires Initial(s) && k < |Exec(s, evs).freed| && Exec(s, evs).freed[k].ad == ExDataSlots.Run(sets)
    ensures forall c | c in Exec(s, evs).freed[k].calls :: c.ptr == LastSet(sets, c.index)
  {
    hide Exec, LastSet, ValueAt;
    TraversalExact(s, evs, k);
    forall c | c in Exec(s, evs).freed[k].calls ensures c.ptr == LastSet(sets, c.index) {
      GetsLastSet(sets, c.index);
    }
  }

  /** The `k`th registration to return an index returns `k + num_reserved`, which fits in
    * `int`, and its node is the `k`th of the list. */
  lemma IndicesConsecutive(s: State, evs: seq<Event>, k: nat)
    requires Initial(s) && k < |Exec(s, evs).returned|
    ensures var s' := Exec(s, evs);
            && k < |s'.order|
            && s'.returned[k] == Registration(s'.order[k], k + s.reserved)
            && s'.returned[k].index <= INT_MAX
            && (s'.lock == None ==> |s'.returned| == s'.numFuncs)
  {
    ExecInv(s, evs);
    ReservedFixed(s, evs);
  }

  lemma StepReserved(s: State, ev: Event)
    ensures Step(s, ev).reserved == s.reserved && |Step(s, ev).threads| == |s.threads|
  {
  }

  lemma {:induction false} ReservedFixed(s: State, evs: seq<Event>)
    ensures Exec(s, evs).reserved == s.reserved && |Exec(s, evs).threads| == |s.threads|
    decreases |evs|
  {
    hide Step;
    if evs != [] {
      ReservedFixed(s, evs[..|evs| - 1]);
      StepReserved(Exec(s, evs[..|evs| - 1]), evs[|evs| - 1]);
    }
  }

  // ----- the assertion in CRYPTO_free_ex_data

  lemma ExecSnoc(s: State, evs: seq<Event>, ev: Event)
    ensures Exec(s, evs + [ev]) == Step(Exec(s, evs), ev)
  {
    assert (evs + [ev])[..|evs|] == evs;
  }

  ghost predicate Quiet(s: State, n: nat) {
    |s.threads| > 0 && s.threads[0] == Idle && s.lock == None && s.numFuncs == n
  }

  /** Any count up to the guard's bound is reached by registering that often. */
  lemma {:induction false} CountReachable(s: State, n: nat) returns (evs: seq<Event>)
    requires Initial(s) && |s.threads| > 0 && n + s.reserved <= INT_MAX + 1
    ensures Quiet(Exec(s, evs), n)
  {
    evs := [];
    if n > 0 {
      evs := CountReachable(s, n - 1);
      ReservedFixed(s, evs);
      evs := RegisterOnce(s, evs, n - 1);
    }
  }

  lemma RegisterOnce(s: State, before: seq<Event>, n: nat) returns (evs: seq<Event>)
    requires Quiet(Exec(s, before), n) && n + Exec(s, before).reserved <= INT_MAX && n + 1 < U32
    ensures Quiet(Exec(s, evs), n + 1)
  {
    hide Step;
    var node := |Exec(s, before).heap|;
    evs := RunToLock(s, before, n);
    evs := RunToLink(s, evs, node, n);
    evs := RunToPublish(s, evs, node, n);
    evs := RunToIdle(s, evs, node, n);
  }

  ghost predicate At(s: State, pc: Pc, lock: Option<nat>, n: nat) {
    |s.threads| > 0 && s.threads[0] == pc && s.lock == lock && s.numFuncs == n
  }

  lemma RunToLock(s: State, before: seq<Event>, n: nat) returns (evs: seq<Event>)
    requires Quiet(Exec(s, before), n)
    ensures At(Exec(s, evs), Lock(|Exec(s, before).heap|), None, n)
    ensures Exec(s, evs).reserved == Exec(s, before).reserved
  {
    var call := Register(0, Entry(0, 0, None), Node(Entry(0, 0, None), None), false);
    ExecSnoc(s, before, call);
    evs := RunTo(s, before + [call], Lock(|Exec(s, before).heap|), None, n);
  }

  lemma RunToLink(s: State, before: seq<Event>, node: nat, n: nat) returns (evs: seq<Event>)
    requires At(Exec(s, before), Lock(node), None, n) && n + Exec(s, before).reserved <= INT_MAX
    ensures At(Exec(s, evs), Link(node, n), Some(0), n)
  {
    evs := RunTo(s, before, Load(node), Some(0), n);
    evs := RunTo(s, evs, Guard(node, n), Some(0), n);
    evs := RunTo(s, evs, Link(node, n), Some(0), n);
  }

  lemma RunToPublish(s: State, before: seq<Event>, node: nat, n: nat) returns (evs: seq<Event>)
    requires At(Exec(s, before), Link(node, n), Some(0), n)
    ensures At(Exec(s, evs), Publish(node, n), Some(0), n)
  {
    evs := RunTo(s, before, SetLast(node, n), Some(0), n);
    evs := RunTo(s, evs, Publish(node, n), Some(0), n);
  }

  lemma RunToIdle(s: State, before: seq<Event>, node: nat, n: nat) returns (evs: seq<Event>)
    requires At(Exec(s, before), Publish(node, n), Some(0), n) && n + 1 < U32
    ensures At(Exec(s, evs), Idle, None, n + 1)
  {
    evs := RunTo(s, before, Unlock(node, n), Some(0), n + 1);
    evs := RunTo(s, evs, Idle, None, n + 1);
  }

  /** Thread 0 takes one step, to a control point, lock and count the caller names. */
  lemma RunTo(s: State, before: seq<Event>, pc: Pc, lock: Option<nat>, n: nat) returns (evs: seq<Event>)
    requires At(Step(Exec(s, before), Run(0)), pc, lock, n)
    ensures At(Exec(s, evs), pc, lock, n) && Exec(s, evs).reserved == Exec(s, before).reserved
  {
    hide Step;
    evs := before + [Run(0)];
    ExecSnoc(s, before, Run(0));
    StepReserved(Exec(s, before), Run(0));
  }

  /** A registration has been given the index INT_MAX, or is about to return it. */
  ghost predicate LastIndexTaken(s: State) {
    || (exists k :: 0 <= k < |s.returned| && s.returned[k].index == INT_MAX)
    || (exists u :: 0 <= u < |s.threads| && s.threads[u].Unlock? && s.threads[u].n + s.reserved == INT_MAX)
  }

  /** The debug assertion on a traversal's snapshot fails exactly when the index INT_MAX has been
    * given out; with no registration under way, when some call has returned it. */
  lemma AssertionBound(s: State, evs: seq<Event>, t: nat, ad: Stack)
    requires Initial(s) && t < |Exec(s, evs).threads| && Exec(s, evs).threads[t] == Idle && ad.Some?
    ensures var s' := Exec(s, evs);
            var pc := Step(s', Free(t, ad)).threads[t];
            && pc.Visit?
            && (pc.n > INT_MAX - s.reserved <==> LastIndexTaken(s'))
            && (s'.lock == None ==>
                  (LastIndexTaken(s') <==> exists k :: 0 <= k < |s'.returned| && s'.returned[k].index == INT_MAX))
  {
    ExecInv(s, evs);
    ReservedFixed(s, evs);
    var s' := Exec(s, evs);
    hide Exec;
    CountedIsTaken(s');
  }

  lemma CountedIsTaken(s: State)
    requires Inv(s)
    ensures s.numFuncs > INT_MAX - s.reserved <==> LastIndexTaken(s)
    ensures s.lock == None ==> forall u | 0 <= u < |s.threads| :: !s.threads[u].Unlock?
  {
    hide ListInv, FreedInv, Apart, ReaderInv;
    if s.numFuncs > INT_MAX - s.reserved {
      var k := INT_MAX - s.reserved;
      if k < |s.returned| {
        assert s.returned[k].index == INT_MAX;
      } else {
        var u := s.lock.value;
        assert ThreadInv(s.heap, s.order, s.reserved, s.threads[u]);
      }
    }
    if u :| 0 <= u < |s.threads| && s.threads[u].Unlock? && s.threads[u].n + s.reserved == INT_MAX {
      assert ThreadInv(s.heap, s.order, s.reserved, s.threads[u]);
    }
  }

  /** A run whose last event is a traversal that takes such a snapshot. */
  lemma AssertionFails(s: State) returns (evs: seq<Event>)
    requires Initial(s) && |s.threads| > 0
    ensures var pc := Exec(s, evs).threads;
            |pc| > 0 && pc[0].Visit? && pc[0].n == INT_MAX - s.reserved + 1
    ensures evs != [] && evs[|evs| - 1] == Free(0, Some([]))
  {
    var before := CountReachable(s, INT_MAX - s.reserved + 1);
    ReservedFixed(s, before);
    ExecSnoc(s, before, Free(0, Some([])));
    hide Exec;
    evs := before + [Free(0, Some([]))];
  }
}
