/** Whole runs of the allocator: any sequence of allocations, frees and additions of memory, from any
    heap, with caches that hold some of the blocks.
  */
module HeapRuns {
  import opened Bits
  import opened FreeList
  import opened Heap
  import opened Allocator

  /** Allocate a block, free one of those held, let a cache have one of them, or add memory. */
  datatype Request =
    | Get(size: nat, align: nat, offset: nat)
    | Give(index: nat)
    | Lend(index: nat)
    | Add(start: nat, len: nat)

  /** The memory that a request adds. */
  ghost function Added(r: Request): set<int> {
    if r.Add? then Range(r.start, r.len) else {}
  }

  /** What the allocator demands of requests: sizes that are not zero, alignments that are powers of
      two or zero, and memory that is not added twice. */
  ghost predicate Proper(requests: seq<Request>, h: Pool)
    reads h`pool
  {
    (forall i :: 0 <= i < |requests| ==> ProperRequest(requests[i], h))
    && (forall i, j :: 0 <= i < j < |requests| ==> Added(requests[i]) !! Added(requests[j]))
    && (forall i :: 0 <= i < |requests| ==> Added(requests[i]) !! h.pool)
  }

  ghost predicate ProperRequest(r: Request, h: Pool) {
    match r
    case Get(size, align, _) => 0 < size < h.Words() && (align == 0 || (IsPow2(align) && align < h.Words()))
    case Add(start, len) => 0 < start && start + len <= h.mem.Length
    case _ => true
  }

  /** A request that cannot go astray. */
  ghost predicate SaneRequest(r: Request, h: Pool)
    requires h.min > 0
  {
    match r
    case Get(size, align, _) => h.Sane(size, align)
    case Add(_, len) => h.min <= len
    case _ => true
  }

  /** A request that has gone astray: the first block that looks large enough is not, or less memory than
      a block is added. */
  ghost predicate Astray(r: Request, h: Pool)
    requires h.min > 0
    reads h`free
  {
    match r
    case Get(size, align, offset) => h.Astray(h.free, h.Rounded(size), h.Alignment(align), offset)
    case Add(_, len) => len < h.min
    case _ => false
  }

  /** The pool after some requests. */
  ghost function PoolAfter(pool: set<int>, requests: seq<Request>, min: nat): set<int>
    requires min > 0
  {
    if requests == [] then pool else
      var n := |requests| - 1;
      GrowPool(PoolAfter(pool, requests[..n], min), requests[n], min)
  }

  ghost function GrowPool(pool: set<int>, r: Request, min: nat): set<int>
    requires min > 0
  {
    if r.Add? && min <= r.len then
      RoundedDown(r.len, min);
      pool + Range(r.start, r.len - r.len % min)
    else pool
  }

  /** The blocks held after some requests, given the address that each was granted; zero is none. */
  function Holdings(held: seq<Cached>, requests: seq<Request>, granted: seq<nat>): seq<Cached>
    requires |granted| == |requests|
    decreases |requests|
  {
    if requests == [] then held else
      var n := |requests| - 1;
      Step(Holdings(held, requests[..n], granted[..n]), requests[n], granted[n])
  }

  function Without(held: seq<Cached>, k: nat): seq<Cached> {
    if k < |held| then held[..k] + held[k + 1..] else held
  }

  function Step(held: seq<Cached>, request: Request, ptr: nat): seq<Cached> {
    match request
    case Get(size, _, _) => if ptr == 0 then held else held + [Cached(ptr, size)]
    case Give(k) => Without(held, k)
    case Lend(k) => Without(held, k)
    case Add(_, _) => held
  }

  ghost predicate Distinct(held: seq<Cached>) {
    forall i, j :: 0 <= i < j < |held| ==> held[i].addr != held[j].addr
  }

  /** The live blocks are exactly those held and those that caches hold. */
  ghost predicate Holding(h: Pool, held: seq<Cached>)
    requires h.min > 0
    reads h`live, h`cached
  {
    && (forall i :: 0 <= i < |held| ==> h.Sized(held[i]))
    && Distinct(held) && Addresses(held) !! Addresses(h.cached)
    && h.live.Keys == Addresses(held) + Addresses(h.cached)
  }

  // ----- Lists of blocks

  lemma {:induction false} AddressesOne(c: Cached)
    ensures Addresses([c]) == {c.addr}
  {
    assert [c][0].addr == c.addr;
  }

  lemma {:induction false} AllAmong(held: seq<Cached>)
    ensures forall i :: 0 <= i < |held| ==> held[i].addr in Addresses(held)
  {
  }

  lemma {:induction false} NotAmong(held: seq<Cached>, a: nat)
    requires a !in Addresses(held)
    ensures forall i :: 0 <= i < |held| ==> held[i].addr != a
  {
    forall i | 0 <= i < |held| ensures held[i].addr != a {
      assert held[i].addr in Addresses(held);
    }
  }

  lemma {:induction false} DistinctAdd(held: seq<Cached>, c: Cached)
    requires Distinct(held) && c.addr !in Addresses(held)
    ensures Distinct(held + [c]) && Addresses(held + [c]) == Addresses(held) + {c.addr}
  {
    hide Addresses;
    AddressesAppend(held, [c]);
    AddressesOne(c);
    NotAmong(held, c.addr);
  }

  lemma {:induction false} DistinctRemove(held: seq<Cached>, k: nat)
    requires k < |held| && Distinct(held)
    ensures Distinct(Without(held, k)) && Addresses(Without(held, k)) == Addresses(held) - {held[k].addr}
    ensures held[k].addr in Addresses(held)
    ensures |Without(held, k)| == |held| - 1
    ensures forall i :: 0 <= i < |held| - 1 ==> Without(held, k)[i] == held[if i < k then i else i + 1]
  {
    assert held == held[..k] + [held[k]] + held[k + 1..];
    AddressesAppend(held[..k] + [held[k]], held[k + 1..]);
    AddressesAppend(held[..k], [held[k]]);
    AddressesAppend(held[..k], held[k + 1..]);
    AddressesOne(held[k]);
    OtherAddresses(held[..k], held[k].addr);
    OtherAddresses(held[k + 1..], held[k].addr);
  }

  lemma {:induction false} OtherAddresses(held: seq<Cached>, a: nat)
    requires forall i :: 0 <= i < |held| ==> held[i].addr != a
    ensures a !in Addresses(held)
  {
  }

  /** Discarding some cached blocks leaves the others and those held. */
  lemma {:induction false} Discarded(live: map<nat, nat>, cached: seq<Cached>, held: seq<Cached>, n: nat)
    requires n <= |cached| && Distinct(cached) && Addresses(held) !! Addresses(cached)
    requires live.Keys == Addresses(held) + Addresses(cached)
    ensures (live - Addresses(cached[..n])).Keys == Addresses(held) + Addresses(cached[n..])
    ensures Addresses(held) !! Addresses(cached[n..])
  {
    hide Addresses;
    assert cached == cached[..n] + cached[n..];
    AddressesAppend(cached[..n], cached[n..]);
    assert Addresses(cached[..n]) !! Addresses(cached[n..]) by { SplitDistinct(cached, n); }
  }

  lemma {:induction false} SplitDistinct(cached: seq<Cached>, n: nat)
    requires n <= |cached| && Distinct(cached)
    ensures Addresses(cached[..n]) !! Addresses(cached[n..])
  {
  }

  // ----- Single requests

  /** Blocks keep their bytes. */
  ghost predicate SameBlocks(m: seq<byte>, m': seq<byte>, held: seq<Cached>, min: nat)
    requires min > 0
  {
    forall c :: c in held ==> SameOn(m, m', Range(c.addr, RoundUp(c.size, min)))
  }

  lemma {:induction false} LiveSame(m: seq<byte>, m': seq<byte>, live: map<nat, nat>, held: seq<Cached>, min: nat)
    requires min > 0 && SameOn(m, m', LiveBytes(live))
    requires forall i :: 0 <= i < |held| ==> held[i].addr in live && live[held[i].addr] == RoundUp(held[i].size, min)
    ensures SameBlocks(m, m', held, min)
  {
    hide Range, RoundUp, SameOn;
    forall c | c in held ensures SameOn(m, m', Range(c.addr, RoundUp(c.size, min))) {
      assert c.addr in live && Range(c.addr, RoundUp(c.size, min)) <= LiveBytes(live);
      SameOnFewer(m, m', LiveBytes(live), Range(c.addr, RoundUp(c.size, min)));
    }
  }

  /** Allocate; the request is refused only if caches are empty and nothing fits. */
  method GetBlock(h: Pool, size: nat, align: nat, offset: nat, held: seq<Cached>)
    returns (held': seq<Cached>, ptr: nat, sound: bool)
    requires h.Valid() && Holding(h, held) && ProperRequest(Get(size, align, offset), h)
    modifies h`free, h`freemem, h`live, h`leaked, h`cached, h`clock, h.mem
    ensures h.Valid() && h.pool == old(h.pool) && Holding(h, held') && old(h.leaked) <= h.leaked
    ensures held' == Step(held, Get(size, align, offset), ptr)
    ensures !sound ==> ptr == 0 && Astray(Get(size, align, offset), h)
    ensures h.Sane(size, align) ==> sound
    ensures sound && ptr == 0 ==>
              h.cached == [] && h.NoneFits(h.free, |h.free|, RoundUp(size, h.min), h.Alignment(align), offset)
    ensures ptr != 0 ==> (ptr + h.displacement - offset) % Max(h.Alignment(align), h.min) == 0
    ensures SameBlocks(old(h.mem[..]), h.mem[..], held, h.min)
    ensures old(h.Aligned()) && offset % h.min == 0 ==>
              h.Aligned() && AtEdges(h.leaked - old(h.leaked), h.pool, h.min, h.displacement)
  {
    hide Range, Bytes, LiveBytes, RoundUp, Separate, WellFormed, Partition, SameOn, IsPow2, Pool.Fits, Pool.PreSize,
         Remains, Lost, Pool.Aligned, Pool.NoneFits, Pool.NonePasses, Pool.FirstFit, Pool.Splits, Addresses, Pow2, Max,
         AtEdges, Pool.Astray, Pool.Rounded, Pool.Sane, Pool.Words, SameBlocks;
    ghost var live, cached, mem := h.live, h.cached, h.mem[..];
    ghost var discards;
    ptr, sound, discards := h.AllocBlock(size, align, offset);
    Discarded(live, cached, held, discards);
    ghost var kept := h.Kept(live, cached, discards);
    AllAmong(held);
    LiveSame(mem, h.mem[..], kept, held, h.min);
    held' := held;
    if ptr != 0 {
      DistinctAdd(held, Cached(ptr, size));
      NotAmong(held, ptr);
      held' := held + [Cached(ptr, size)];
    }
  }

  /** Free a block that is held. */
  method GiveBlock(h: Pool, k: nat, held: seq<Cached>) returns (held': seq<Cached>)
    requires h.Valid() && Holding(h, held) && k < |held|
    modifies h`free, h`freemem, h`live, h`clock, h.mem
    ensures h.Valid() && Holding(h, held') && held' == Without(held, k)
    ensures SameBlocks(old(h.mem[..]), h.mem[..], held', h.min)
    ensures old(h.Aligned()) ==> h.Aligned()
  {
    hide Range, Bytes, LiveBytes, RoundUp, Separate, WellFormed, Partition, SameOn, Pool.Aligned, Addresses, Distinct,
         Without, SameBlocks, Pool.Words;
    ghost var mem := h.mem[..];
    DistinctRemove(held, k);
    NotAmong(h.cached, held[k].addr);
    held' := Without(held, k);
    NotAmong(held', held[k].addr);
    h.FreeBlock(held[k].addr, held[k].size);
    LiveSame(mem, h.mem[..], h.live, held', h.min);
  }

  /** Let a cache have a block that is held, to be given back when memory is short. */
  method LendBlock(h: Pool, k: nat, held: seq<Cached>) returns (held': seq<Cached>)
    requires h.Valid() && Holding(h, held) && k < |held|
    modifies h`cached
    ensures h.Valid() && Holding(h, held') && held' == Without(held, k) && h.cached == old(h.cached) + [held[k]]
  {
    hide Range, Bytes, LiveBytes, RoundUp, Separate, WellFormed, Partition, Addresses, Without;
    DistinctRemove(held, k);
    DistinctAdd(h.cached, held[k]);
    held' := Without(held, k);
    h.cached := h.cached + [held[k]];
  }

  // ----- Runs

  /** All requests keep to whole units. */
  ghost predicate WholeUnits(requests: seq<Request>, min: nat, displacement: int)
    requires min > 0
  {
    forall i :: 0 <= i < |requests| ==> WholeRequest(requests[i], min, displacement)
  }

  ghost predicate WholeRequest(r: Request, min: nat, displacement: int)
    requires min > 0
  {
    match r
    case Get(_, _, offset) => offset % min == 0
    case Add(start, _) => (start + displacement) % min == 0
    case _ => true
  }

  /** Memory that is still to be added is not in the pool. */
  lemma {:induction false} NotYetAdded(h: Pool, pool: set<int>, requests: seq<Request>, i: nat, k: nat)
    requires h.min > 0 && i <= k < |requests| && forall j :: 0 <= j < |requests| ==> Added(requests[j]) !! pool
    requires forall j :: 0 <= j < k ==> Added(requests[j]) !! Added(requests[k])
    ensures Added(requests[k]) !! PoolAfter(pool, requests[..i], h.min)
  {
    hide Range, Added;
    if i > 0 {
      NotYetAdded(h, pool, requests, i - 1, k);
      assert requests[..i][..i - 1] == requests[..i - 1];
      assert Added(requests[i - 1]) !! Added(requests[k]);
      GrowInside(requests[i - 1], h.min);
    }
  }

  lemma {:induction false} GrowInside(r: Request, min: nat)
    requires min > 0
    ensures forall pool: set<int> :: GrowPool(pool, r, min) <= pool + Added(r)
  {
    hide Range;
    if r.Add? && min <= r.len {
      RoundedDown(r.len, min);
      assert Range(r.start, r.len - r.len % min) <= Range(r.start, r.len);
    }
  }

  /** Add memory. */
  method AddMemory(h: Pool, start: nat, len: nat, held: seq<Cached>, ghost first: set<int>) returns (sound: bool)
    requires h.Valid() && 0 < start && start + len <= h.mem.Length && Range(start, len) !! h.pool
    requires first <= h.leaked && Holding(h, held)
    modifies h`free, h`freemem, h`pool, h`clock, h.mem
    ensures h.Valid() && (sound <==> h.min <= len) && h.pool == GrowPool(old(h.pool), Add(start, len), h.min)
    ensures SameBlocks(old(h.mem[..]), h.mem[..], held, h.min)
    ensures (start + h.displacement) % h.min == 0 && old(h.Aligned()) ==> h.Aligned()
    ensures (start + h.displacement) % h.min == 0 && AtEdges(h.leaked - first, old(h.pool), h.min, h.displacement) ==>
              AtEdges(h.leaked - first, h.pool, h.min, h.displacement)
  {
    hide Range, Bytes, LiveBytes, RoundUp, Separate, WellFormed, Partition, SameOn, Pool.Aligned, AtEdges, Whole,
         UnitsApart, Pool.Cache, SameBlocks, Addresses, Pool.Words;
    ghost var mem, pool := h.mem[..], h.pool;
    if h.min <= len {
      RoundedDown(len, h.min);
      ghost var actual := len - len % h.min;
      assert Range(start, actual) <= Range(start, len);
      if (start + h.displacement) % h.min == 0 {
        RangeWhole(start, actual, h.min, h.displacement);
        WholeApart(pool, Range(start, actual), h.min, h.displacement);
        if AtEdges(h.leaked - first, pool, h.min, h.displacement) {
          FreeInPool(Bytes(h.free), LiveBytes(h.live), h.leaked, pool, h.freemem);
          EdgesStay(h.leaked - first, pool, Range(start, actual), h.min, h.displacement);
        }
      }
    }
    sound := h.Populate(start, len);
    LiveSame(mem, h.mem[..], h.live, held, h.min);
  }

  /** Serve one request; those for blocks that are not held are skipped.  Blocks that are held before and
      after keep their bytes. */
  method ServeOne(h: Pool, r: Request, held: seq<Cached>, ghost first: set<int>)
    returns (held': seq<Cached>, ptr: nat, sound: bool)
    requires h.Valid() && Holding(h, held) && ProperRequest(r, h) && Added(r) !! h.pool && first <= h.leaked
    modifies h`free, h`freemem, h`pool, h`live, h`leaked, h`cached, h`clock, h.mem
    ensures h.Valid() && Holding(h, held') && held' == Step(held, r, ptr) && h.pool == GrowPool(old(h.pool), r, h.min)
    ensures first <= h.leaked
    ensures !sound ==> Astray(r, h) && held' == held && h.pool == old(h.pool)
    ensures SaneRequest(r, h) ==> sound
    ensures forall c :: c in held && c in held' ==>
              SameOn(old(h.mem[..]), h.mem[..], Range(c.addr, RoundUp(c.size, h.min)))
    ensures WholeRequest(r, h.min, h.displacement) && old(h.Aligned())
            && AtEdges(old(h.leaked) - first, old(h.pool), h.min, h.displacement) ==>
              h.Aligned() && AtEdges(h.leaked - first, h.pool, h.min, h.displacement)
  {
    hide Range, Bytes, LiveBytes, RoundUp, Separate, WellFormed, Partition, SameOn, Pool.Aligned, Pool.NoneFits,
         Addresses, AtEdges, IsPow2, Max, Pow2, Holding, Pool.Cache, Pool.Parameters, Pool.Partitioned, Pool.Astray,
         Pool.Sane, Pool.Words;
    held', ptr, sound := held, 0, true;
    ghost var before := h.leaked;
    match r {
      case Get(size, align, offset) =>
        held', ptr, sound := GetBlock(h, size, align, offset, held);
        MoreEdges(h.leaked, before, first, h.pool, h.min, h.displacement);
      case Give(k) =>
        if k < |held| {
          held' := GiveBlock(h, k, held);
        } else {
          AllSame(h.mem[..], held, h.min);
        }
      case Lend(k) =>
        AllSame(h.mem[..], held, h.min);
        if k < |held| {
          held' := LendBlock(h, k, held);
        }
      case Add(start, len) =>
        sound := AddMemory(h, start, len, held, first);
    }
  }

  lemma {:induction false} AllSame(m: seq<byte>, held: seq<Cached>, min: nat)
    requires min > 0
    ensures SameBlocks(m, m, held, min)
  {
    hide Range, RoundUp, SameOn;
    forall c | c in held ensures SameOn(m, m, Range(c.addr, RoundUp(c.size, min))) {
      SameMemory(m, Range(c.addr, RoundUp(c.size, min)));
    }
  }

  lemma {:induction false} MoreEdges(leaked: set<int>, before: set<int>, first: set<int>, pool: set<int>, min: nat,
                                     displacement: int)
    requires min > 0
    ensures AtEdges(leaked - before, pool, min, displacement) && AtEdges(before - first, pool, min, displacement) ==>
              AtEdges(leaked - first, pool, min, displacement)
  {
    hide Inside;
  }

  /** A block is held after each of the requests that have been served. */
  ghost predicate Throughout(held: seq<Cached>, requests: seq<Request>, granted: seq<nat>, c: Cached)
    requires |granted| <= |requests|
  {
    forall j :: 0 <= j <= |granted| ==> c in Holdings(held, requests[..j], granted[..j])
  }

  lemma {:induction false} ThroughoutSnoc(held: seq<Cached>, requests: seq<Request>, granted: seq<nat>, ptr: nat,
                                          c: Cached)
    requires |granted| < |requests| && Throughout(held, requests, granted + [ptr], c)
    ensures var n := |granted|;
            Throughout(held, requests, granted, c) && c in Holdings(held, requests[..n], granted)
            && c in Holdings(held, requests[..n + 1], granted + [ptr])
  {
    hide Holdings;
    var n, all := |granted|, granted + [ptr];
    forall j | 0 <= j <= n ensures c in Holdings(held, requests[..j], granted[..j]) {
      assert all[..j] == granted[..j];
      assert c in Holdings(held, requests[..j], all[..j]);
    }
    assert granted[..n] == granted && all[..n + 1] == all;
    assert c in Holdings(held, requests[..n + 1], all[..n + 1]);
  }

  /** Blocks that are held throughout keep their bytes. */
  ghost predicate SameThroughout(m: seq<byte>, m': seq<byte>, held: seq<Cached>, requests: seq<Request>,
                                 granted: seq<nat>, min: nat)
    requires |granted| <= |requests| && min > 0
  {
    forall c :: Throughout(held, requests, granted, c) ==> SameOn(m, m', Range(c.addr, RoundUp(c.size, min)))
  }

  /** One more request keeps the bytes of the blocks that are held before and after. */
  lemma {:induction false} SameSnoc(m: seq<byte>, m': seq<byte>, m'': seq<byte>, held: seq<Cached>,
                                    requests: seq<Request>, granted: seq<nat>, ptr: nat, min: nat)
    requires |granted| < |requests| && min > 0 && SameThroughout(m, m', held, requests, granted, min)
    requires var n := |granted|;
             forall c :: c in Holdings(held, requests[..n], granted)
                         && c in Holdings(held, requests[..n + 1], granted + [ptr]) ==>
                           SameOn(m', m'', Range(c.addr, RoundUp(c.size, min)))
    ensures SameThroughout(m, m'', held, requests, granted + [ptr], min)
  {
    hide Holdings, Throughout, Range, RoundUp, SameOn;
    forall c | Throughout(held, requests, granted + [ptr], c)
      ensures SameOn(m, m'', Range(c.addr, RoundUp(c.size, min)))
    {
      ThroughoutSnoc(held, requests, granted, ptr, c);
      var bytes := Range(c.addr, RoundUp(c.size, min));
      SameOnTransitive(m, m', m'', bytes, bytes);
    }
  }

  /** After any run of requests, from any heap, the live blocks are exactly those held and cached,
      and the counter plus their rounded sizes is the size of the pool.  If the heap is aligned and
      requests keep to whole units, bytes have leaked only at the edges of the pool, and so none
      if the pool consists of whole units.  Whenever the blocks and the pool are again what they were,
      the free list is what it was exactly if nothing has leaked.  Blocks that are held throughout keep
      their bytes.  The run ends early at a request that goes astray, which sane ones never do. */
  method Serve(h: Pool, requests: seq<Request>, held0: seq<Cached>)
    returns (held: seq<Cached>, granted: seq<nat>, sound: bool)
    requires h.Valid() && Holding(h, held0) && Proper(requests, h)
    modifies h`free, h`freemem, h`pool, h`live, h`leaked, h`cached, h`clock, h.mem
    ensures h.Valid() && Holding(h, held) && old(h.leaked) <= h.leaked
    ensures |granted| <= |requests| && held == Holdings(held0, requests[..|granted|], granted)
    ensures if sound then |granted| == |requests| else |granted| < |requests| && Astray(requests[|granted|], h)
    ensures (forall i :: 0 <= i < |requests| ==> SaneRequest(requests[i], h)) ==> sound
    ensures h.pool == PoolAfter(old(h.pool), requests[..|granted|], h.min) && h.freemem + SizeSum(h.live) == |h.pool|
    ensures SameThroughout(old(h.mem[..]), h.mem[..], held0, requests, granted, h.min)
    ensures old(h.Aligned()) && WholeUnits(requests, h.min, h.displacement) ==>
              h.Aligned() && AtEdges(h.leaked - old(h.leaked), h.pool, h.min, h.displacement)
              && (Whole(h.pool, h.min, h.displacement) ==> h.leaked == old(h.leaked))
    ensures h.live == old(h.live) && h.pool == old(h.pool) ==> (h.free == old(h.free) <==> h.leaked == old(h.leaked))
  {
    hide Range, Bytes, LiveBytes, Separate, WellFormed, Partition, Pool.Aligned, Addresses, SizeSum, Pool.Cache,
         Pool.Parameters, Step, Holdings, PoolAfter, GrowPool, AtEdges, Holding, Whole, ProperRequest, Added,
         WholeRequest, SaneRequest, Astray, SameOn, RoundUp, SameThroughout;
    held, granted, sound := held0, [], true;
    NothingYet(h.pool, h.mem[..], requests, held0, h.min);
    FewerAtEdges(h.leaked - h.leaked, {}, h.pool, h.min, h.displacement);
    while sound && |granted| < |requests|
      invariant h.Valid() && Holding(h, held) && old(h.leaked) <= h.leaked
      invariant |granted| <= |requests| && held == Holdings(held0, requests[..|granted|], granted)
      invariant !sound ==> |granted| < |requests| && Astray(requests[|granted|], h)
      invariant (forall i :: 0 <= i < |requests| ==> SaneRequest(requests[i], h)) ==> sound
      invariant h.pool == PoolAfter(old(h.pool), requests[..|granted|], h.min)
      invariant SameThroughout(old(h.mem[..]), h.mem[..], held0, requests, granted, h.min)
      invariant old(h.Aligned()) && WholeUnits(requests, h.min, h.displacement) ==>
                  h.Aligned() && AtEdges(h.leaked - old(h.leaked), h.pool, h.min, h.displacement)
      decreases sound, |requests| - |granted|
    {
      var i := |granted|;
      assert Added(requests[i]) !! h.pool by { NotYetAdded(h, old(h.pool), requests, i, i); }
      ghost var mem := h.mem[..];
      var ptr;
      held, ptr, sound := ServeOne(h, requests[i], held, old(h.leaked));
      if sound {
        RunSnoc(old(h.pool), held0, requests, granted, ptr, h.min);
        SameSnoc(old(h.mem[..]), mem, h.mem[..], held0, requests, granted, ptr, h.min);
        granted := granted + [ptr];
      } else {
        SameHeld(old(h.mem[..]), mem, h.mem[..], held0, requests, granted, h.min);
      }
    }
    Conserved(h);
    if AtEdges(h.leaked - old(h.leaked), h.pool, h.min, h.displacement) && Whole(h.pool, h.min, h.displacement) {
      NothingLeaked(h, old(h.leaked));
    }
    if h.live == old(h.live) && h.pool == old(h.pool) {
      SameFree(old(h.free), h.free, LiveBytes(h.live), old(h.leaked), h.leaked, h.pool, old(h.freemem), h.freemem,
        h.min);
    }
  }

  lemma {:induction false} SameHeld(m: seq<byte>, m': seq<byte>, m'': seq<byte>, held: seq<Cached>,
                                    requests: seq<Request>, granted: seq<nat>, min: nat)
    requires |granted| <= |requests| && min > 0 && SameThroughout(m, m', held, requests, granted, min)
    requires SameBlocks(m', m'', Holdings(held, requests[..|granted|], granted), min)
    ensures SameThroughout(m, m'', held, requests, granted, min)
  {
    hide Holdings, Range, RoundUp, SameOn;
    forall c | Throughout(held, requests, granted, c) ensures SameOn(m, m'', Range(c.addr, RoundUp(c.size, min))) {
      assert granted[..|granted|] == granted;
      assert c in Holdings(held, requests[..|granted|], granted);
      var bytes := Range(c.addr, RoundUp(c.size, min));
      SameOnTransitive(m, m', m'', bytes, bytes);
    }
  }

  lemma {:induction false} NothingYet(pool: set<int>, m: seq<byte>, requests: seq<Request>, held: seq<Cached>, min: nat)
    requires min > 0
    ensures PoolAfter(pool, requests[..0], min) == pool && Holdings(held, requests[..0], []) == held
    ensures SameThroughout(m, m, held, requests, [], min)
  {
    hide Range, RoundUp, SameOn;
    forall c: Cached ensures SameOn(m, m, Range(c.addr, RoundUp(c.size, min))) {
      SameMemory(m, Range(c.addr, RoundUp(c.size, min)));
    }
  }

  lemma {:induction false} RunSnoc(pool: set<int>, held: seq<Cached>, requests: seq<Request>, granted: seq<nat>,
                                   ptr: nat, min: nat)
    requires |granted| < |requests| && min > 0
    ensures var n := |granted|;
            && Holdings(held, requests[..n + 1], granted + [ptr])
              == Step(Holdings(held, requests[..n], granted), requests[n], ptr)
            && PoolAfter(pool, requests[..n + 1], min)
              == GrowPool(PoolAfter(pool, requests[..n], min), requests[n], min)
  {
    hide Step, GrowPool;
    var n := |granted|;
    assert requests[..n + 1][..n] == requests[..n] && (granted + [ptr])[..n] == granted;
  }
}
