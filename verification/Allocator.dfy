/** The size-prefixed allocator of crypto/mem.cc, on its default branch, over a flat memory in
  * which the C library has handed out disjoint regions.
  */
module Allocator {
  import opened Basics

  const SIZE_MAX: nat := U64 - 1

  /** OPENSSL_MALLOC_PREFIX */
  const PREFIX: nat := 8

  // ----- bytes of memory

  /** An integer as `k` octets, least significant first. */
  function ToOctets(n: nat, k: nat): (b: Bytes)
    ensures |b| == k
  {
    if k == 0 then [] else [n % 256] + ToOctets(n / 256, k - 1)
  }

  function FromOctets(b: Bytes): nat {
    if b == [] then 0 else b[0] + 256 * FromOctets(b[1..])
  }

  function Limit(k: nat): nat {
    if k == 0 then 1 else 256 * Limit(k - 1)
  }

  lemma {:induction false} OctetsRoundTrip(n: nat, k: nat)
    requires n < Limit(k)
    ensures FromOctets(ToOctets(n, k)) == n
  {
    if k > 0 {
      OctetsRoundTrip(n / 256, k - 1);
      assert ToOctets(n, k)[1..] == ToOctets(n / 256, k - 1);
    }
  }

  lemma PrefixHoldsSize(n: nat)
    requires n < U64
    ensures FromOctets(ToOctets(n, PREFIX)) == n
  {
    assert Limit(4) == 0x1_0000_0000;
    assert Limit(8) == 256 * (256 * (256 * (256 * Limit(4))));
    OctetsRoundTrip(n, PREFIX);
  }

  function Zeros(n: nat): (b: Bytes)
    ensures |b| == n && forall i | 0 <= i < n :: b[i] == 0
  {
    seq(n, i => 0)
  }

  function Written(mem: Bytes, at: nat, b: Bytes): (r: Bytes)
    requires at + |b| <= |mem|
    ensures |r| == |mem| && r[at..at + |b|] == b
  {
    mem[..at] + b + mem[at + |b|..]
  }

  /** The two ranges do not overlap. */
  predicate Apart(a: nat, m: nat, b: nat, n: nat) {
    a + m <= b || b + n <= a
  }

  lemma WrittenElsewhere(mem: Bytes, at: nat, b: Bytes, p: nat, n: nat)
    requires at + |b| <= |mem| && p + n <= |mem| && Apart(at, |b|, p, n)
    ensures Written(mem, at, b)[p..p + n] == mem[p..p + n]
  {
    var w := Written(mem, at, b);
    forall i | p <= i < p + n ensures w[i] == mem[i] {
      if i < at { assert w[i] == mem[..at][i]; } else { assert w[i] == mem[at + |b|..][i - (at + |b|)]; }
    }
  }

  // ----- regions

  type Regions = map<nat, nat>

  /** A region lies in memory, not at the null address, and its prefix holds the rest of its length. */
  predicate RegionOk(mem: Bytes, base: nat, len: nat) {
    && 0 < base && PREFIX <= len && base + len <= |mem|
    && FromOctets(mem[base..base + PREFIX]) == len - PREFIX
  }

  predicate ApartFromAll(regions: Regions, base: nat, len: nat) {
    forall r | r in regions :: Apart(r, regions[r], base, len)
  }

  ghost predicate AllApart(regions: Regions) {
    forall r, q | r in regions && q in regions && r != q :: Apart(r, regions[r], q, regions[q])
  }

  ghost predicate WellFormed(mem: Bytes, regions: Regions) {
    |mem| <= U64 && AllApart(regions) && forall r | r in regions :: RegionOk(mem, r, regions[r])
  }

  /** The C library can serve a request for `len` bytes at `base`. */
  predicate IsFree(mem: Bytes, regions: Regions, base: nat, len: nat) {
    0 < base && base + len <= |mem| && ApartFromAll(regions, base, len)
  }

  /** Writing outside every region, or inside one behind its prefix, leaves the others alone. */
  lemma WriteKeeps(mem: Bytes, regions: Regions, at: nat, b: Bytes, r: nat)
    requires r in regions && RegionOk(mem, r, regions[r]) && at + |b| <= |mem| && Apart(r, regions[r], at, |b|)
    ensures var w := Written(mem, at, b);
            RegionOk(w, r, regions[r]) && w[r..r + regions[r]] == mem[r..r + regions[r]]
  {
    var n := regions[r];
    WrittenElsewhere(mem, at, b, r, n);
    WrittenElsewhere(mem, at, b, r, PREFIX);
  }

  /** Every block but those at the pointers in `except` is live exactly as before, with the same bytes. */
  ghost predicate Kept(mem: Bytes, regions: Regions, mem': Bytes, regions': Regions, except: set<nat>)
    requires WellFormed(mem, regions) && WellFormed(mem', regions')
  {
    && (forall r | r + PREFIX !in except :: r in regions <==> r in regions')
    && forall r | r in regions && r + PREFIX !in except ::
         && regions'[r] == regions[r]
         && mem'[r..r + regions[r]] == mem[r..r + regions[r]]
  }

  lemma KeptTwice(m1: Bytes, r1: Regions, e1: set<nat>, m2: Bytes, r2: Regions, e2: set<nat>, m3: Bytes, r3: Regions)
    requires WellFormed(m1, r1) && WellFormed(m2, r2) && WellFormed(m3, r3)
    requires Kept(m1, r1, m2, r2, e1) && Kept(m2, r2, m3, r3, e2)
    ensures Kept(m1, r1, m3, r3, e1 + e2)
  {
    hide WellFormed;
  }

  lemma StillApart(regions: Regions, base: nat, len: nat)
    requires AllApart(regions) && ApartFromAll(regions, base, len)
    ensures AllApart(regions[base := len])
  {
  }

  lemma AddRegion(mem: Bytes, regions: Regions, base: nat, size: nat)
    requires WellFormed(mem, regions) && IsFree(mem, regions, base, size + PREFIX) && size < U64
    ensures base !in regions
    ensures var w, rs := Written(mem, base, ToOctets(size, PREFIX)), regions[base := size + PREFIX];
            WellFormed(w, rs) && Kept(mem, regions, w, rs, {base + PREFIX})
  {
    var w := Written(mem, base, ToOctets(size, PREFIX));
    PrefixHoldsSize(size);
    StillApart(regions, base, size + PREFIX);
    assert RegionOk(w, base, size + PREFIX);
    hide ToOctets, FromOctets, Written, AllApart;
    forall r | r in regions ensures RegionOk(w, r, regions[r]) && w[r..r + regions[r]] == mem[r..r + regions[r]] {
      WriteKeeps(mem, regions, base, ToOctets(size, PREFIX), r);
    }
  }

  lemma WriteInside(mem: Bytes, regions: Regions, base: nat, at: nat, b: Bytes)
    requires WellFormed(mem, regions) && base in regions
    requires base + PREFIX <= at && at + |b| <= base + regions[base]
    ensures var w := Written(mem, at, b);
            WellFormed(w, regions) && Kept(mem, regions, w, regions, {base + PREFIX})
  {
    hide FromOctets, Written;
    var w := Written(mem, at, b);
    WrittenElsewhere(mem, at, b, base, PREFIX);
    forall r | r in regions && r != base
      ensures RegionOk(w, r, regions[r]) && w[r..r + regions[r]] == mem[r..r + regions[r]]
    {
      assert Apart(r, regions[r], base, regions[base]);
      WriteKeeps(mem, regions, at, b, r);
    }
  }

  lemma RemoveRegion(mem: Bytes, regions: Regions, base: nat, b: Bytes)
    requires WellFormed(mem, regions) && base in regions && |b| == regions[base]
    ensures var w, rs := Written(mem, base, b), regions - {base};
            WellFormed(w, rs) && Kept(mem, regions, w, rs, {base + PREFIX})
  {
    hide FromOctets, Written;
    var w := Written(mem, base, b);
    forall r | r in regions && r != base
      ensures RegionOk(w, r, regions[r]) && w[r..r + regions[r]] == mem[r..r + regions[r]]
    {
      assert Apart(r, regions[r], base, regions[base]);
      WriteKeeps(mem, regions, base, b, r);
    }
  }

  /** What well-formedness says of one region. */
  lemma RegionFacts(mem: Bytes, regions: Regions, base: nat)
    requires WellFormed(mem, regions) && base in regions
    ensures var len := regions[base];
            && 0 < base && PREFIX <= len && base + len <= |mem| <= U64
            && FromOctets(mem[base..base + PREFIX]) == len - PREFIX
  {
    assert RegionOk(mem, base, regions[base]);
  }

  // ----- the operations on values

  datatype Store = Store(mem: Bytes, regions: Regions)

  predicate LiveAt(st: Store, ptr: nat) {
    PREFIX <= ptr && ptr - PREFIX in st.regions
  }

  predicate Serves(st: Store, at: nat, size: nat) {
    size + PREFIX < U64 && IsFree(st.mem, st.regions, at, size + PREFIX)
  }

  function DoMalloc(st: Store, size: nat, wanted: nat): Store {
    if Serves(st, wanted, size) then
      Store(Written(st.mem, wanted, ToOctets(size, PREFIX)), st.regions[wanted := size + PREFIX])
    else st
  }

  predicate CanWrite(st: Store, ptr: nat, offset: nat, b: Bytes) {
    && LiveAt(st, ptr) && PREFIX + offset + |b| <= st.regions[ptr - PREFIX]
    && ptr - PREFIX + st.regions[ptr - PREFIX] <= |st.mem|
  }

  /** A client's write inside a live block. */
  function DoWrite(st: Store, ptr: nat, offset: nat, b: Bytes): Store {
    if CanWrite(st, ptr, offset, b) then st.(mem := Written(st.mem, ptr + offset, b)) else st
  }

  function DoFree(st: Store, ptr: nat): Store {
    if LiveAt(st, ptr) && ptr - PREFIX + st.regions[ptr - PREFIX] <= |st.mem| then
      var base := ptr - PREFIX;
      Store(Written(st.mem, base, Zeros(st.regions[base])), st.regions - {base})
    else st
  }

  function DoZalloc(st: Store, size: nat, wanted: nat): Store {
    if Serves(st, wanted, size) then DoWrite(DoMalloc(st, size, wanted), wanted + PREFIX, 0, Zeros(size)) else st
  }

  function DoMove(st: Store, ptr: nat, ret: nat, n: nat): Store {
    if ptr + n <= |st.mem| then DoFree(DoWrite(st, ret, 0, st.mem[ptr..ptr + n]), ptr) else st
  }

  function DoRealloc(st: Store, ptr: nat, newSize: nat, wanted: nat): Store {
    if ptr == 0 then DoMalloc(st, newSize, wanted)
    else if LiveAt(st, ptr) && PREFIX <= st.regions[ptr - PREFIX] && Serves(st, wanted, newSize) then
      DoMove(DoMalloc(st, newSize, wanted), ptr, wanted + PREFIX, Min(st.regions[ptr - PREFIX] - PREFIX, newSize))
    else st
  }

  /** One call, by a client that frees and reallocates only live blocks and writes only inside
    * them; other calls are left without effect.  `wanted` is where the library would serve it. */
  datatype Op =
    | Malloc(size: nat, wanted: nat)
    | Zalloc(size: nat, wanted: nat)
    | Calloc(num: nat, size: nat, wanted: nat)
    | Realloc(ptr: nat, size: nat, wanted: nat)
    | Free(ptr: nat)
    | Write(ptr: nat, offset: nat, bytes: Bytes)

  function Do(st: Store, op: Op): Store {
    match op
    case Malloc(size, wanted) => DoMalloc(st, size, wanted)
    case Zalloc(size, wanted) => DoZalloc(st, size, wanted)
    case Calloc(num, size, wanted) => DoZalloc(st, num * size, wanted)
    case Realloc(ptr, size, wanted) => DoRealloc(st, ptr, size, wanted)
    case Free(ptr) => DoFree(st, ptr)
    case Write(ptr, offset, bytes) => DoWrite(st, ptr, offset, bytes)
  }

  /** The sizes asked for at the pointers handed out, by what each call was given. */
  type Sizes = map<nat, nat>

  function Asked(sizes: Sizes, st: Store, op: Op): Sizes {
    match op
    case Malloc(size, wanted) => if Serves(st, wanted, size) then sizes[wanted + PREFIX := size] else sizes
    case Zalloc(size, wanted) => if Serves(st, wanted, size) then sizes[wanted + PREFIX := size] else sizes
    case Calloc(num, size, wanted) => if Serves(st, wanted, num * size) then sizes[wanted + PREFIX := num * size] else sizes
    case Realloc(ptr, size, wanted) =>
      if Serves(st, wanted, size) && (ptr == 0 || ptr in sizes) then (sizes - {ptr})[wanted + PREFIX := size] else sizes
    case Free(ptr) => sizes - {ptr}
    case Write(_, _, _) => sizes
  }

  datatype History = History(store: Store, sizes: Sizes)

  function Run(mem: Bytes, ops: seq<Op>): History
    decreases |ops|
  {
    if ops == [] then History(Store(mem, map[]), map[])
    else
      var h, op := Run(mem, ops[..|ops| - 1]), ops[|ops| - 1];
      History(Do(h.store, op), Asked(h.sizes, h.store, op))
  }

  /** The regions are the blocks asked for, each with its prefix. */
  ghost predicate SizesMatch(regions: Regions, sizes: Sizes) {
    && (forall r | r in regions :: r + PREFIX in sizes)
    && forall p | p in sizes :: PREFIX <= p && p - PREFIX in regions && regions[p - PREFIX] == sizes[p] + PREFIX
  }

  ghost predicate Good(h: History) {
    WellFormed(h.store.mem, h.store.regions) && SizesMatch(h.store.regions, h.sizes)
  }

  lemma MallocGood(h: History, size: nat, wanted: nat)
    requires Good(h)
    ensures Serves(h.store, wanted, size) ==>
              Good(History(DoMalloc(h.store, size, wanted), h.sizes[wanted + PREFIX := size]))
  {
    hide WellFormed, Written, ToOctets, IsFree;
    if Serves(h.store, wanted, size) {
      AddRegion(h.store.mem, h.store.regions, wanted, size);
    }
  }

  lemma WriteGood(h: History, ptr: nat, offset: nat, b: Bytes)
    requires Good(h)
    ensures Good(History(DoWrite(h.store, ptr, offset, b), h.sizes))
  {
    hide WellFormed, Written, SizesMatch;
    if CanWrite(h.store, ptr, offset, b) {
      WriteInside(h.store.mem, h.store.regions, ptr - PREFIX, ptr + offset, b);
    }
  }

  lemma FreeGood(h: History, ptr: nat)
    requires Good(h)
    ensures Good(History(DoFree(h.store, ptr), h.sizes - {ptr}))
  {
    hide WellFormed, Written;
    if LiveAt(h.store, ptr) {
      RegionFacts(h.store.mem, h.store.regions, ptr - PREFIX);
      RemoveRegion(h.store.mem, h.store.regions, ptr - PREFIX, Zeros(h.store.regions[ptr - PREFIX]));
    } else {
      assert h.sizes - {ptr} == h.sizes;
    }
  }

  lemma ReallocGood(h: History, ptr: nat, size: nat, wanted: nat)
    requires Good(h)
    ensures Good(History(DoRealloc(h.store, ptr, size, wanted), Asked(h.sizes, h.store, Realloc(ptr, size, wanted))))
  {
    hide WellFormed, Written, IsFree, DoWrite, DoFree;
    MallocGood(h, size, wanted);
    assert 0 !in h.sizes;
    if ptr == 0 {
      assert h.sizes - {ptr} == h.sizes;
    } else if LiveAt(h.store, ptr) && Serves(h.store, wanted, size) {
      RegionFacts(h.store.mem, h.store.regions, ptr - PREFIX);
      NotYetServed(h.store, wanted, size);
      var h1 := History(DoMalloc(h.store, size, wanted), h.sizes[wanted + PREFIX := size]);
      var n := Min(h.store.regions[ptr - PREFIX] - PREFIX, size);
      var moved := h1.store.mem[ptr..ptr + n];
      var h2 := History(DoWrite(h1.store, wanted + PREFIX, 0, moved), h1.sizes);
      hide SizesMatch;
      WriteGood(h1, wanted + PREFIX, 0, moved);
      FreeGood(h2, ptr);
      assert h2.sizes - {ptr} == (h.sizes - {ptr})[wanted + PREFIX := size];
    }
  }

  lemma NotYetServed(st: Store, wanted: nat, size: nat)
    requires WellFormed(st.mem, st.regions) && Serves(st, wanted, size)
    ensures wanted !in st.regions && |DoMalloc(st, size, wanted).mem| == |st.mem|
  {
    AddRegion(st.mem, st.regions, wanted, size);
  }

  lemma StepGood(h: History, op: Op)
    requires Good(h)
    ensures Good(History(Do(h.store, op), Asked(h.sizes, h.store, op)))
  {
    hide Good, DoMalloc, DoWrite, DoFree, DoRealloc, Serves;
    match op
    case Malloc(size, wanted) =>
      MallocGood(h, size, wanted);
      NotServed(h.store, size, wanted);
    case Zalloc(size, wanted) =>
      MallocGood(h, size, wanted);
      if Serves(h.store, wanted, size) {
        WriteGood(History(DoMalloc(h.store, size, wanted), h.sizes[wanted + PREFIX := size]), wanted + PREFIX, 0, Zeros(size));
      }
    case Calloc(num, each, wanted) =>
      var size := num * each;
      MallocGood(h, size, wanted);
      if Serves(h.store, wanted, size) {
        WriteGood(History(DoMalloc(h.store, size, wanted), h.sizes[wanted + PREFIX := size]), wanted + PREFIX, 0, Zeros(size));
      }
    case Realloc(ptr, size, wanted) => ReallocGood(h, ptr, size, wanted);
    case Free(ptr) => FreeGood(h, ptr);
    case Write(ptr, offset, bytes) => WriteGood(h, ptr, offset, bytes);
  }

  lemma NotServed(st: Store, size: nat, wanted: nat)
    ensures !Serves(st, wanted, size) ==> DoMalloc(st, size, wanted) == st
  {
  }

  /** The block at `p` lies in memory and its prefix holds `size`; with the prefix that size
    * does not wrap. */
  predicate HoldsSize(mem: Bytes, p: nat, size: nat) {
    && PREFIX <= p && p + size <= |mem| && size + PREFIX < U64
    && FromOctets(mem[p - PREFIX..p]) == size
  }

  lemma GoodSize(h: History, p: nat)
    requires Good(h)
    ensures p in h.sizes <==> LiveAt(h.store, p)
    ensures p in h.sizes ==> HoldsSize(h.store.mem, p, h.sizes[p])
  {
    hide WellFormed, FromOctets;
    if p in h.sizes {
      RegionFacts(h.store.mem, h.store.regions, p - PREFIX);
    }
    if LiveAt(h.store, p) {
      assert p - PREFIX in h.store.regions;
    }
  }

  /** In every run the live blocks are exactly those asked for and not given back, each apart
    * from the others and with the size that was asked for in its prefix. */
  lemma RunKeeps(mem: Bytes, ops: seq<Op>)
    requires |mem| <= U64
    ensures var h := Run(mem, ops);
            && WellFormed(h.store.mem, h.store.regions)
            && forall p: nat ::
                 && (p in h.sizes <==> LiveAt(h.store, p))
                 && (p in h.sizes ==> HoldsSize(h.store.mem, p, h.sizes[p]))
  {
    RunGood(mem, ops);
    var h := Run(mem, ops);
    assert WellFormed(h.store.mem, h.store.regions);
    hide Run, Good, WellFormed, HoldsSize, LiveAt;
    forall p: nat
      ensures p in h.sizes <==> LiveAt(h.store, p)
      ensures p in h.sizes ==> HoldsSize(h.store.mem, p, h.sizes[p])
    {
      GoodSize(h, p);
    }
  }

  lemma {:induction false} RunGood(mem: Bytes, ops: seq<Op>)
    requires |mem| <= U64
    ensures Good(Run(mem, ops))
    decreases |ops|
  {
    if ops != [] {
      RunGood(mem, ops[..|ops| - 1]);
      hide Good;
      StepGood(Run(mem, ops[..|ops| - 1]), ops[|ops| - 1]);
    }
  }

  // ----- the allocator

  class Heap {
    var mem: Bytes
    var regions: Regions
    /** What each region given back to the C library held at that moment. */
    ghost var released: seq<Bytes>

    ghost predicate Valid()
      reads this
    {
      WellFormed(mem, regions)
    }

    predicate IsLive(ptr: nat)
      reads this
    {
      PREFIX <= ptr && ptr - PREFIX in regions
    }

    /** The bytes a client sees at a live pointer. */
    ghost function Payload(ptr: nat): (b: Bytes)
      requires Valid() && IsLive(ptr)
      reads this
      ensures |b| == regions[ptr - PREFIX] - PREFIX
    {
      mem[ptr..ptr - PREFIX + regions[ptr - PREFIX]]
    }

    function Now(): Store
      reads this
    {
      Store(mem, regions)
    }

    ghost predicate CanServe(at: nat, size: nat)
      reads this
    {
      Serves(Now(), at, size)
    }

    constructor (mem: Bytes)
      requires |mem| <= U64
      ensures Valid() && regions == map[] && this.mem == mem
    {
      this.mem := mem;
      regions := map[];
      released := [];
    }

    /** Every block but those in `except` is as it was. */
    twostate predicate KeepsAllBut(except: set<nat>)
      requires old(Valid()) && Valid()
      reads this
    {
      Kept(old(mem), old(regions), mem, regions, except)
    }

    /** malloc: the library serves the request at the address it likes, or not at all. */
    method LibraryMalloc(len: nat, wanted: nat) returns (base: nat)
      modifies this`regions
      ensures base == if old(IsFree(mem, regions, wanted, len)) then wanted else 0
      ensures regions == if base == 0 then old(regions) else old(regions)[base := len]
    {
      if !IsFree(mem, regions, wanted, len) {
        return 0;
      }
      regions := regions[wanted := len];
      return wanted;
    }

    /** free or sdallocx: the length given must be the length obtained. */
    method LibraryFree(base: nat, len: nat)
      requires base in regions && regions[base] == len && base + len <= |mem|
      modifies this`regions, this`released
      ensures regions == old(regions) - {base}
      ensures released == old(released) + [mem[base..base + len]]
    {
      released := released + [mem[base..base + len]];
      regions := regions - {base};
    }

    /** A client's write inside a live block. */
    method Write(ptr: nat, offset: nat, b: Bytes)
      requires Valid() && IsLive(ptr) && offset + |b| <= |Payload(ptr)|
      modifies this`mem
      ensures Valid() && KeepsAllBut({ptr}) && IsLive(ptr)
      ensures Payload(ptr) == Written(old(Payload(ptr)), offset, b)
      ensures Now() == DoWrite(old(Now()), ptr, offset, b)
    {
      hide Written, WellFormed, Kept;
      RegionFacts(mem, regions, ptr - PREFIX);
      WriteInside(mem, regions, ptr - PREFIX, ptr + offset, b);
      PartWritten(mem, ptr, ptr - PREFIX + regions[ptr - PREFIX], offset, b);
      mem := Written(mem, ptr + offset, b);
    }

    /** OPENSSL_malloc */
    method Malloc(size: nat, wanted: nat) returns (ptr: nat)
      requires Valid() && size < U64
      modifies this
      ensures Valid() && released == old(released)
      ensures ptr == if old(CanServe(wanted, size)) then wanted + PREFIX else 0
      ensures ptr == 0 ==> mem == old(mem) && regions == old(regions)
      ensures ptr != 0 ==> !old(IsLive(ptr)) && IsLive(ptr) && |Payload(ptr)| == size && KeepsAllBut({ptr})
      ensures Now() == DoMalloc(old(Now()), size, wanted)
    {
      hide Written, ToOctets, WellFormed, Kept, IsFree;
      if (size + PREFIX) % U64 < size {
        return 0;
      }
      var base := LibraryMalloc(size + PREFIX, wanted);
      if base == 0 {
        assert !old(IsFree(mem, regions, wanted, size + PREFIX)) by { NullIsTaken(mem, old(regions), size + PREFIX); }
        return 0;
      }
      FreeFits(mem, old(regions), base, size + PREFIX);
      AddRegion(mem, old(regions), base, size);
      mem := Written(mem, base, ToOctets(size, PREFIX));
      return base + PREFIX;
    }

    /** OPENSSL_zalloc */
    method Zalloc(size: nat, wanted: nat) returns (ptr: nat)
      requires Valid() && size < U64
      modifies this
      ensures Valid() && released == old(released)
      ensures ptr == if old(CanServe(wanted, size)) then wanted + PREFIX else 0
      ensures ptr == 0 ==> mem == old(mem) && regions == old(regions)
      ensures ptr != 0 ==> !old(IsLive(ptr)) && IsLive(ptr) && Payload(ptr) == Zeros(size) && KeepsAllBut({ptr})
      ensures Now() == DoZalloc(old(Now()), size, wanted)
    {
      hide WellFormed, Kept, DoMalloc, DoWrite, Serves;
      ptr := Malloc(size, wanted);
      if ptr != 0 {
        ghost var mem1, regions1 := mem, regions;
        Write(ptr, 0, Zeros(size));
        KeptTwice(old(mem), old(regions), {ptr}, mem1, regions1, {ptr}, mem, regions);
        assert {ptr} + {ptr} == {ptr};
      }
    }

    /** OPENSSL_calloc: the multiplication is refused exactly when it would wrap. */
    method Calloc(num: nat, size: nat, wanted: nat) returns (ptr: nat)
      requires Valid() && num < U64 && size < U64
      modifies this
      ensures Valid() && released == old(released)
      ensures ptr == if old(CanServe(wanted, num * size)) then wanted + PREFIX else 0
      ensures ptr == 0 ==> mem == old(mem) && regions == old(regions)
      ensures ptr != 0 ==> !old(IsLive(ptr)) && IsLive(ptr) && Payload(ptr) == Zeros(num * size) && KeepsAllBut({ptr})
      ensures Now() == DoZalloc(old(Now()), num * size, wanted)
    {
      ProductWraps(num, size);
      if size != 0 && num > SIZE_MAX / size {
        return 0;
      }
      assert (num * size) % U64 == num * size;
      ptr := Zalloc(num * size, wanted);
    }

    /** OPENSSL_free: the block is zero, prefix included, when the library gets it back, and
      * no other byte of memory has changed. */
    method Free(ptr: nat)
      requires Valid() && (ptr == 0 || IsLive(ptr))
      modifies this
      ensures Valid()
      ensures ptr == 0 ==> mem == old(mem) && regions == old(regions) && released == old(released)
      ensures ptr != 0 ==>
                && !IsLive(ptr) && KeepsAllBut({ptr})
                && var len := old(regions)[ptr - PREFIX];
                && released == old(released) + [Zeros(len)]
                && mem == Written(old(mem), ptr - PREFIX, Zeros(len))
      ensures Now() == DoFree(old(Now()), ptr)
    {
      hide Written, WellFormed, Kept;
      if ptr == 0 {
        return;
      }
      var base := ptr - PREFIX;
      RegionFacts(mem, regions, base);
      var size := FromOctets(mem[base..base + PREFIX]);
      assert size + PREFIX == regions[base] < U64;
      RemoveRegion(mem, regions, base, Zeros(size + PREFIX));
      mem := Written(mem, base, Zeros(size + PREFIX));
      LibraryFree(base, size + PREFIX);
    }

    /** The end of OPENSSL_realloc: copy, then free the old block. */
    method MoveAndFree(ptr: nat, ret: nat, toCopy: nat)
      requires Valid() && IsLive(ptr) && IsLive(ret) && ptr != ret
      requires toCopy <= |Payload(ptr)| && toCopy <= |Payload(ret)|
      modifies this
      ensures Valid() && !IsLive(ptr) && IsLive(ret) && KeepsAllBut({ret, ptr})
      ensures |Payload(ret)| == |old(Payload(ret))|
      ensures Payload(ret)[..toCopy] == old(Payload(ptr))[..toCopy]
      ensures released == old(released) + [Zeros(old(regions)[ptr - PREFIX])]
      ensures Now() == DoMove(old(Now()), ptr, ret, toCopy)
    {
      hide WellFormed, Kept, Written, DoWrite, DoFree;
      RegionFacts(mem, regions, ptr - PREFIX);
      var copied := mem[ptr..ptr + toCopy];
      assert copied == Payload(ptr)[..toCopy];
      ghost var before := Payload(ret);
      assert Written(before, 0, copied)[0..toCopy] == copied;
      Write(ret, 0, copied);
      ghost var mem1, regions1 := mem, regions;
      KeptPayload(old(mem), old(regions), mem, regions, {ret}, ptr - PREFIX);
      Free(ptr);
      KeptPayload(mem1, regions1, mem, regions, {ptr}, ret - PREFIX);
      KeptTwice(old(mem), old(regions), {ret}, mem1, regions1, {ptr}, mem, regions);
      assert {ret} + {ptr} == {ret, ptr};
    }

    /** OPENSSL_realloc: on success the new block starts with the first min(old, new) bytes and
      * the old one is gone; on failure nothing has changed. */
    method Realloc(ptr: nat, newSize: nat, wanted: nat) returns (ret: nat)
      requires Valid() && newSize < U64 && (ptr == 0 || IsLive(ptr))
      modifies this
      ensures Valid()
      ensures ret == if old(CanServe(wanted, newSize)) then wanted + PREFIX else 0
      ensures ret == 0 ==> mem == old(mem) && regions == old(regions) && released == old(released)
      ensures ret != 0 ==> !old(IsLive(ret)) && IsLive(ret) && |Payload(ret)| == newSize
      ensures ret != 0 && ptr == 0 ==> KeepsAllBut({ret}) && released == old(released)
      ensures ret != 0 && ptr != 0 ==>
                && !IsLive(ptr) && KeepsAllBut({ret, ptr})
                && var kept := Min(|old(Payload(ptr))|, newSize);
                && Payload(ret)[..kept] == old(Payload(ptr))[..kept]
                && released == old(released) + [Zeros(old(regions)[ptr - PREFIX])]
      ensures Now() == DoRealloc(old(Now()), ptr, newSize, wanted)
    {
      hide WellFormed, Kept, IsFree, DoMalloc, DoMove, Serves;
      if ptr == 0 {
        ret := Malloc(newSize, wanted);
        return;
      }
      var base := ptr - PREFIX;
      RegionFacts(mem, regions, base);
      var oldSize := FromOctets(mem[base..base + PREFIX]);
      ret := Malloc(newSize, wanted);
      if ret == 0 {
        return;
      }
      var toCopy := newSize;
      if oldSize < toCopy {
        toCopy := oldSize;
      }
      ghost var mem1, regions1 := mem, regions;
      KeptPayload(old(mem), old(regions), mem, regions, {ret}, base);
      assert Payload(ptr) == old(Payload(ptr));
      MoveAndFree(ptr, ret, toCopy);
      KeptTwice(old(mem), old(regions), {ret}, mem1, regions1, {ret, ptr}, mem, regions);
      assert {ret} + {ret, ptr} == {ret, ptr};
    }
  }

  lemma NullIsTaken(mem: Bytes, regions: Regions, len: nat)
    ensures !IsFree(mem, regions, 0, len)
  {
  }

  lemma FreeFits(mem: Bytes, regions: Regions, base: nat, len: nat)
    requires IsFree(mem, regions, base, len)
    ensures 0 < base && base + len <= |mem|
  {
  }

  /** A kept block has the same payload. */
  lemma KeptPayload(mem: Bytes, regions: Regions, mem': Bytes, regions': Regions, except: set<nat>, base: nat)
    requires WellFormed(mem, regions) && WellFormed(mem', regions') && Kept(mem, regions, mem', regions', except)
    requires base in regions && base + PREFIX !in except
    ensures base in regions' && regions'[base] == regions[base]
    ensures mem'[base + PREFIX..base + regions[base]] == mem[base + PREFIX..base + regions[base]]
  {
    hide FromOctets, AllApart;
    var n := regions[base];
    RegionFacts(mem, regions, base);
    assert mem'[base + PREFIX..base + n] == mem'[base..base + n][PREFIX..];
    assert mem[base + PREFIX..base + n] == mem[base..base + n][PREFIX..];
  }

  function Min(a: nat, b: nat): nat {
    if a < b then a else b
  }

  lemma ProductWraps(num: nat, size: nat)
    ensures (size != 0 && num > SIZE_MAX / size) <==> num * size >= U64
  {
    if size != 0 {
      var q := SIZE_MAX / size;
      assert SIZE_MAX == q * size + SIZE_MAX % size;
      if num > q {
        assert num * size >= (q + 1) * size == q * size + size;
      } else {
        assert num * size <= q * size;
      }
    }
  }

  /** A write inside a slice is that write on the slice. */
  lemma PartWritten(mem: Bytes, from: nat, to: nat, offset: nat, b: Bytes)
    requires from + offset + |b| <= to <= |mem|
    ensures Written(mem, from + offset, b)[from..to] == Written(mem[from..to], offset, b)
  {
  }
}
