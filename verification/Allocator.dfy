/** The allocator's state and operations.

    Addresses are virtual; physical addresses differ from them by a fixed displacement.  Memory is
    one array of bytes.  A free block's header (its size and list links) occupies the first bytes
    of the block, and changing the list rewrites headers; `junk` stands for whatever they come to
    hold, so that everything proved holds for any representation of headers.
  */
module Allocator {
  import opened Bits
  import opened FreeList
  import opened Heap
  import opened HeapWords

  /** An allocation that a cache would give back: its address and requested size. */
  datatype Cached = Cached(addr: nat, size: nat)

  class Pool {
    /** Minimum block size, size of a block header and size of a machine word, in bytes. */
    const min: nat
    const header: nat
    const word: nat
    /** Physical address minus virtual address. */
    const displacement: int
    /** What a header byte holds after the n-th rewriting of headers. */
    const junk: (nat, nat) -> byte
    /** How many cached items a cache discards when asked. */
    const burst: nat -> nat

    const mem: array<byte>
    var clock: nat
    var free: seq<Block>
    var freemem: int
    var cached: seq<Cached>

    /** All memory ever added to the pool, the live blocks with their rounded sizes, and the
        fragments that were too small to keep. */
    ghost var pool: set<int>
    ghost var live: map<nat, nat>
    ghost var leaked: set<int>

    /** The number of machine words. */
    function Words(): nat {
      Pow2(8 * word)
    }

    /** A size rounded up to a multiple of the minimum block size. */
    function Rounded(size: nat): nat
      requires min > 0
    {
      RoundWord(size, min, Words())
    }

    ghost predicate Parameters() {
      IsPow2(min) && 0 < word <= header <= min < Words()
    }

    /** Free, live and leaked bytes partition the pool, and the free memory counter counts what is
        not live. */
    ghost predicate Partitioned()
      reads this`free, this`freemem, this`pool, this`live, this`leaked
    {
      Partition(Bytes(free), LiveBytes(live), leaked, pool, freemem)
    }

    ghost predicate Sized(c: Cached)
      requires min > 0
      reads this`live
    {
      c.size > 0 && c.addr in live && live[c.addr] == RoundUp(c.size, min)
    }

    ghost predicate Cache()
      requires min > 0
      reads this`live, this`cached
    {
      (forall i :: 0 <= i < |cached| ==> Sized(cached[i]))
      && forall i, j :: 0 <= i < j < |cached| ==> cached[i].addr != cached[j].addr
    }

    ghost predicate Valid()
      reads this
    {
      Parameters() && min > 0 && WellFormed(free, min) && Separate(live) && Partitioned() && Cache()
      && (forall a :: a in live ==> a > 0 && live[a] > 0)
      && (forall x :: x in pool ==> 0 < x < mem.Length) && 2 * mem.Length <= Words()
    }

    /** Free memory consists of whole units as far as the pool does, and so do the live blocks. */
    ghost predicate Aligned()
      requires min > 0
      reads this`free, this`live, this`pool
    {
      WholeIn(Bytes(free), pool, min, displacement)
      && forall a :: a in live ==> (a + displacement) % min == 0 && live[a] % min == 0
    }

    constructor (min: nat, header: nat, word: nat, displacement: int, junk: (nat, nat) -> byte, burst: nat -> nat,
                 mem: array<byte>)
      requires IsPow2(min) && 0 < word <= header <= min < Pow2(8 * word) && 2 * mem.Length <= Pow2(8 * word)
      ensures Valid() && free == [] && freemem == 0 && cached == [] && pool == {} && live == map[] && leaked == {}
      ensures this.min == min && this.mem == mem && this.displacement == displacement && Aligned()
    {
      hide Pow2, IsPow2;
      this.min, this.header, this.word, this.displacement := min, header, word, displacement;
      this.junk, this.burst, this.mem, clock := junk, burst, mem, 0;
      free, freemem, cached := [], 0, [];
      pool, live, leaked := {}, map[], {};
    }

    /** Rewrite the headers of free blocks. */
    method WriteHeaders(ghost others: set<int>)
      requires Parameters() && WellFormed(free, min) && others !! Bytes(free)
      modifies this`clock, mem
      ensures SameOn(old(mem[..]), mem[..], others)
    {
      forall x | 0 <= x < mem.Length && exists i :: 0 <= i < |free| && free[i].addr <= x < free[i].addr + header {
        mem[x] := junk(clock, x);
      }
      clock := clock + 1;
      forall x | x in others && 0 <= x < mem.Length ensures mem[x] == old(mem[x]) {
        BytesMember(free, x);
      }
    }

    /** Insert a block into the free list, merging it with a block that it touches on either side. */
    method Insert(ptr: nat, size: nat)
      requires Parameters() && WellFormed(free, min) && size >= min && Range(ptr, size) !! Bytes(free)
      modifies this`free
      ensures WellFormed(free, min) && Bytes(free) == old(Bytes(free)) + Range(ptr, size)
    {
      hide Range, Bytes, WellFormed;
      var freeing := Block(ptr, size);
      var gapAfter := -1;
      var i := 0;
      while i < |free|
        invariant i <= |free| && WellFormed(free, min) && freeing.size >= min
        invariant Range(freeing.addr, freeing.size) !! Bytes(free)
        invariant Bytes(free) + Range(freeing.addr, freeing.size) == old(Bytes(free)) + Range(ptr, size)
        invariant Below(free, i, freeing.addr)
        invariant gapAfter < 0
        invariant freeing == Block(ptr, size) || Above(free, i, freeing.End())
        decreases |free| - i
      {
        var block := free[i];
        var gapBefore := freeing.addr - block.End();
        gapAfter := block.addr - freeing.End();
        Beside(free, i, freeing, min);
        if gapBefore == 0 {
          MergePreceding(free, i, freeing, min);
          free := free[..i] + free[i + 1..];
          freeing := Block(block.addr, block.size + size);
        } else if gapAfter < 0 {
          i := i + 1;
        }
        if gapAfter >= 0 {
          break;
        }
      }
      if gapAfter == 0 {
        MergeFollowing(free, i, freeing, min);
        var block := free[i];
        free := free[..i] + [Block(freeing.addr, freeing.size + block.size)] + free[i + 1..];
      } else {
        InsertBetween(free, i, freeing, min);
        free := free[..i] + [freeing] + free[i..];
      }
    }

    // ----- Freeing

    /** Give a block back to the free list. */
    method FreeBlock(ptr: nat, size: nat)
      requires Valid() && (ptr == 0 || Sized(Cached(ptr, size)))
      requires forall i :: 0 <= i < |cached| ==> cached[i].addr != ptr
      modifies this`free, this`freemem, this`live, this`clock, mem
      ensures Valid()
      ensures ptr == 0 ==> free == old(free) && live == old(live) && mem[..] == old(mem[..])
      ensures ptr != 0 ==> live == old(live) - {ptr} && freemem == old(freemem) + RoundUp(size, min)
      ensures ptr != 0 ==> Bytes(free) == old(Bytes(free)) + Range(ptr, RoundUp(size, min))
      ensures old(Aligned()) ==> Aligned()
      ensures SameOn(old(mem[..]), mem[..], LiveBytes(live))
    {
      hide Range, Bytes, LiveBytes, WellFormed, RoundUp, Separate, Partition, SameOn, WholeIn, UnitsApart;
      if ptr == 0 {
        SameMemory(mem[..], LiveBytes(live));
        return;
      }
      LiveRounded(ptr, size);
      var actual := Rounded(size);
      LiveRemove(live, ptr);
      PositiveMultiple(actual, min);
      if Aligned() {
        RangeWhole(ptr, actual, min, displacement);
        WholeInUnion(Bytes(free), Range(ptr, actual), pool, min, displacement);
      }
      PartitionFree(Bytes(free), LiveBytes(live), leaked, pool, freemem, ptr, actual);
      Insert(ptr, actual);
      live := live - {ptr};
      freemem := freemem + actual;
      WriteHeaders(LiveBytes(live));
    }

    /** Add memory to the pool, rounded down to a multiple of the minimum block size.  Adding less than
        that fails an assertion. */
    method Populate(start: nat, len: nat) returns (sound: bool)
      requires Valid() && start > 0 && start + len <= mem.Length && Range(start, len) !! pool
      modifies this`free, this`freemem, this`pool, this`clock, mem
      ensures Valid() && (sound <==> len >= min) && (sound ==> len - len % min > 0)
      ensures !sound ==> free == old(free) && freemem == old(freemem) && pool == old(pool) && mem[..] == old(mem[..])
      ensures sound ==> pool == old(pool) + Range(start, len - len % min)
      ensures sound ==> Bytes(free) == old(Bytes(free)) + Range(start, len - len % min)
      ensures sound ==> freemem == old(freemem) + (len - len % min)
      ensures sound && old(Aligned()) && UnitsApart(old(pool), Range(start, len - len % min), min, displacement) ==>
                Aligned()
      ensures SameOn(old(mem[..]), mem[..], LiveBytes(live))
    {
      hide Range, Bytes, LiveBytes, WellFormed, Separate, Partition, SameOn, WholeIn, UnitsApart, Pow2;
      if len < min {
        SameMemory(mem[..], LiveBytes(live));
        return false;
      }
      RoundedDown(len, min);
      var actual := len - len % min;
      if Aligned() && UnitsApart(pool, Range(start, actual), min, displacement) {
        FreeInPool(Bytes(free), LiveBytes(live), leaked, pool, freemem);
        WholeInPopulate(Bytes(free), pool, Range(start, actual), min, displacement);
      }
      assert Range(start, actual) <= Range(start, len);
      PartitionPopulate(Bytes(free), LiveBytes(live), leaked, pool, freemem, start, actual);
      Insert(start, actual);
      pool := pool + Range(start, actual);
      freemem := freemem + actual;
      WriteHeaders(LiveBytes(live));
      return true;
    }

    /** The heap as it is at first: one region, which need not start or end between units.  It is
        aligned all the same, so that what is lost later is lost at its start or end. */
    method InitHeap(start: nat, len: nat)
      requires Valid() && pool == {} && Aligned() && start > 0 && start + len <= mem.Length && len >= min
      modifies this`free, this`freemem, this`pool, this`clock, mem
      ensures Valid() && Aligned() && len - len % min > 0 && live == old(live)
      ensures free == [Block(start, len - len % min)] && pool == Range(start, len - len % min)
    {
      hide Range, Bytes, LiveBytes, WellFormed, Separate, Partition, SameOn, Aligned, UnitsApart, Cache, IsPow2;
      RoundedDown(len, min);
      ghost var actual := len - len % min;
      FreeInPool(Bytes(free), LiveBytes(live), leaked, pool, freemem);
      assert UnitsApart({}, Range(start, actual), min, displacement) by {
        NothingApart(Range(start, actual), min, displacement);
      }
      var sound := Populate(start, len);
      assert {} + Range(start, actual) == Range(start, actual);
      OneBlock(free, start, actual, min);
    }

    // ----- Cached data

    /** Discard some cached data: free some of the blocks that caches hold. */
    method DiscardCache() returns (discarded: nat)
      requires Valid()
      modifies this`free, this`freemem, this`live, this`cached, this`clock, mem
      ensures Valid() && pool == old(pool) && leaked == old(leaked)
      ensures discarded == |old(cached)| - |cached| && cached == old(cached)[discarded..]
      ensures discarded == 0 <==> old(cached) == []
      ensures live == old(live) - Addresses(old(cached)[..discarded])
      ensures old(cached) == [] ==> free == old(free) && mem[..] == old(mem[..])
      ensures old(Aligned()) ==> Aligned()
      ensures LiveBytes(live) <= old(LiveBytes(live)) && SameOn(old(mem[..]), mem[..], LiveBytes(live))
    {
      hide Range, Bytes, LiveBytes, WellFormed, RoundUp, Separate, Partition, SameOn, WholeIn, UnitsApart;
      discarded := 0;
      SameMemory(mem[..], LiveBytes(live));
      if cached == [] {
        assert old(live) - Addresses(old(cached)[..0]) == old(live);
        return;
      }
      var n := burst(|cached|);
      n := if n < 1 then 1 else if n > |cached| then |cached| else n;
      while discarded < n
        invariant Valid() && discarded <= n <= |old(cached)| && cached == old(cached)[discarded..]
        invariant live == old(live) - Addresses(old(cached)[..discarded])
        invariant old(Aligned()) ==> Aligned()
        invariant LiveBytes(live) <= old(LiveBytes(live)) && SameOn(old(mem[..]), mem[..], LiveBytes(live))
      {
        var c := cached[0];
        ghost var live0, mem0 := live, mem[..];
        cached := cached[1..];
        AddressesSnoc(old(cached), discarded);
        FreeBlock(c.addr, c.size);
        FewerBytes(live0, c.addr);
        SameOnTransitive(old(mem[..]), mem0, mem[..], LiveBytes(live0), LiveBytes(live));
        discarded := discarded + 1;
      }
    }

    // ----- Allocating

    /** Bytes to skip in a block before the first address with the wanted physical alignment. */
    function PreSize(b: Block, align: nat, offset: nat): (pre: nat)
      requires align > 0 && min > 0
    {
      Remainder(offset - (b.addr + displacement), Or(align - 1, min - 1) + 1);
      (offset - (b.addr + displacement)) % (Or(align - 1, min - 1) + 1)
    }

    /** What is left of a block is enough. */
    predicate Fits(b: Block, size: nat, align: nat, offset: nat)
      requires align > 0 && min > 0
    {
      b.size - PreSize(b, align, offset) - size >= 0
    }

    /** What is left of a block looks as if it were enough, as a signed word. */
    predicate Passes(b: Block, size: nat, align: nat, offset: nat)
      requires align > 0 && min > 0
    {
      NotNegative(b.size - PreSize(b, align, offset) - size, Words())
    }

    /** None of the first `n` blocks is large enough. */
    ghost predicate NoneFits(list: seq<Block>, n: nat, size: nat, align: nat, offset: nat)
      requires align > 0 && min > 0 && n <= |list|
    {
      forall i :: 0 <= i < n ==> !Fits(list[i], size, align, offset)
    }

    /** None of the first `n` blocks looks large enough. */
    ghost predicate NonePasses(list: seq<Block>, n: nat, size: nat, align: nat, offset: nat)
      requires align > 0 && min > 0 && n <= |list|
    {
      forall i :: 0 <= i < n ==> !Passes(list[i], size, align, offset)
    }

    /** Index `i` holds the first block that looks large enough. */
    ghost predicate FirstFit(list: seq<Block>, i: nat, size: nat, align: nat, offset: nat)
      requires align > 0 && min > 0
    {
      i < |list| && Passes(list[i], size, align, offset) && NonePasses(list, i, size, align, offset)
    }

    /** The first block that looks large enough is not, or nothing at all is wanted of it. */
    ghost predicate Astray(list: seq<Block>, size: nat, align: nat, offset: nat)
      requires align > 0 && min > 0
    {
      exists i: nat :: FirstFit(list, i, size, align, offset) && !(size > 0 && Fits(list[i], size, align, offset))
    }

    /** A size and an alignment for which rounding does not wrap and blocks that look large enough are. */
    ghost predicate Sane(size: nat, align: nat)
      requires min > 0
    {
      size + min - 1 < Words() && RoundUp(size, min) + Max(Alignment(align), min) <= Words() / 2 + min + 1
    }

    /** Block `i` of a list has been split at `ptr`, which turned the list into another. */
    ghost predicate Splits(list: seq<Block>, i: nat, size: nat, align: nat, offset: nat,
                           ptr: nat, list': seq<Block>, leaked: set<int>, leaked': set<int>)
      requires align > 0 && min > 0
    {
      i < |list| && Fits(list[i], size, align, offset)
      && var b, pre := list[i], PreSize(list[i], align, offset);
         && ptr == b.addr + pre
         && list' == list[..i] + Remains(b, pre, size, min) + list[i + 1..]
         && leaked' == leaked + Lost(b, pre, size, min)
    }

    /** Search for the first block that looks as if it had enough space. */
    method Search(size: nat, align: nat, offset: nat) returns (found: bool, i: nat)
      requires align > 0 && min > 0
      ensures found ==> FirstFit(free, i, size, align, offset)
      ensures found ==>
                i < |free| && Passes(free[i], size, align, offset)
                && forall j :: 0 <= j < i ==> !Passes(free[j], size, align, offset)
      ensures !found ==> NonePasses(free, |free|, size, align, offset)
    {
      hide Passes;
      i := 0;
      while i < |free|
        invariant i <= |free| && NonePasses(free, i, size, align, offset)
      {
        if Passes(free[i], size, align, offset) {
          return true, i;
        }
        i := i + 1;
      }
      return false, i;
    }

    /** Split a block into what precedes, what is taken and what follows, and take it out of the
        list; what precedes or follows stays in the list unless it is too small. */
    method Split(i: nat, pre: nat, size: nat)
      requires i < |free| && pre + size <= free[i].size
      modifies this`free
      ensures free == old(free)[..i] + Remains(old(free)[i], pre, size, min) + old(free)[i + 1..]
    {
      var block := free[i];
      var post := Block(block.addr + pre + size, block.size - pre - size);
      if post.size >= min {
        free := free[..i + 1] + [post] + free[i + 1..];
      }
      free := free[i := Block(block.addr, pre)];
      if pre < min {
        free := free[..i] + free[i + 1..];
      }
    }

    /** Allocate from the block at index `i`. */
    method Take(i: nat, pre: nat, actual: nat) returns (ptr: nat)
      requires Valid() && i < |free| && actual > 0 && pre + actual <= free[i].size
      modifies this`free, this`freemem, this`live, this`leaked, this`clock, mem
      ensures Valid() && ptr == old(free)[i].addr + pre > 0
      ensures free == old(free)[..i] + Remains(old(free)[i], pre, actual, min) + old(free)[i + 1..]
      ensures freemem == old(freemem) - actual
      ensures ptr !in old(live) && live == old(live)[ptr := actual]
      ensures leaked == old(leaked) + Lost(old(free)[i], pre, actual, min)
      ensures old(Aligned()) && (ptr + displacement) % min == 0 && actual % min == 0 ==>
                Aligned() && AtEdges(Lost(old(free)[i], pre, actual, min), pool, min, displacement)
      ensures Range(ptr, actual) !! old(LiveBytes(live)) && LiveBytes(live) == old(LiveBytes(live)) + Range(ptr, actual)
      ensures SameOn(old(mem[..]), mem[..], old(LiveBytes(live)))
    {
      hide Range, Bytes, LiveBytes, WellFormed, RoundUp, Separate, Partition, SameOn, Lost, Remains, WholeIn, AtEdges;
      ghost var b, before, mem0, live0 := free[i], Bytes(free), mem[..], LiveBytes(live);
      ptr := free[i].addr + pre;
      TakeFromFree(free, i, pre, actual, min, live, leaked, pool, freemem);
      if Aligned() && (ptr + displacement) % min == 0 && actual % min == 0 {
        TakeWhole(free, i, pre, actual, pool, min, displacement);
      }
      WriteHeaders(live0);
      ghost var mem1 := mem[..];
      Split(i, pre, actual);
      live := live[ptr := actual];
      leaked := leaked + Lost(b, pre, actual, min);
      freemem := freemem - actual;
      WriteHeaders(live0);
      SameOnTransitive(mem0, mem1, mem[..], live0, live0);
    }

    /** The live blocks after the first `n` cached items have been discarded. */
    ghost function Kept(live: map<nat, nat>, cached: seq<Cached>, n: nat): map<nat, nat>
      requires n <= |cached|
    {
      live - Addresses(cached[..n])
    }

    /** The alignment that is asked for: the mask of no alignment is that of all address bits. */
    function Alignment(align: nat): nat {
      if align == 0 then Words() else align
    }

    /** Allocate a block of physically aligned memory, discarding cached data as long as nothing
        fits.  Zero stands for failure.  If a block looks large enough and is not, or the size wraps to
        zero, the program goes on with memory that is not its own; the model stops before that and
        tells so.  This does not happen for sane sizes and alignments. */
    method AllocBlock(size: nat, align: nat, offset: nat) returns (ptr: nat, sound: bool, ghost discards: nat)
      requires Valid() && 0 < size < Words() && (align == 0 || (IsPow2(align) && align < Words()))
      modifies this`free, this`freemem, this`live, this`leaked, this`cached, this`clock, mem
      ensures Valid() && pool == old(pool) && old(leaked) <= leaked
      ensures discards <= |old(cached)| && cached == old(cached)[discards..]
      // astray, which sane sizes never go
      ensures !sound ==> ptr == 0 && Astray(free, Rounded(size), Alignment(align), offset)
      ensures Sane(size, align) ==> sound
      ensures 0 < align <= min && 2 * RoundUp(size, min) <= Pow2(8 * word) ==> sound
      // failure: everything cached has been discarded and still nothing fits
      ensures sound && ptr == 0 ==>
                cached == [] && NonePasses(free, |free|, Rounded(size), Alignment(align), offset)
                && NoneFits(free, |free|, RoundUp(size, min), Alignment(align), offset)
      ensures ptr == 0 ==> live == Kept(old(live), old(cached), discards) && leaked == old(leaked)
      // success: the block is new, aligned, and the only change to the live blocks kept
      ensures ptr != 0 ==> size + min - 1 < Words() && Rounded(size) == RoundUp(size, min)
      ensures ptr != 0 ==> (ptr + displacement - offset) % Max(Alignment(align), min) == 0
      ensures ptr != 0 && align == 0 ==> (ptr + displacement - offset) % Pow2(8 * word) == 0
      ensures ptr != 0 ==> ptr !in Kept(old(live), old(cached), discards)
      ensures ptr != 0 ==> live == Kept(old(live), old(cached), discards)[ptr := RoundUp(size, min)]
      ensures ptr != 0 ==> Range(ptr, RoundUp(size, min)) !! LiveBytes(Kept(old(live), old(cached), discards))
      // if something looks large enough at once, nothing is discarded and it is split if it is
      ensures forall i: nat :: FirstFit(old(free), i, Rounded(size), Alignment(align), offset) ==>
                discards == 0 && (sound <==> !Astray(old(free), Rounded(size), Alignment(align), offset))
      ensures forall i: nat :: FirstFit(old(free), i, Rounded(size), Alignment(align), offset) ==>
                sound ==>
                  freemem == old(freemem) - RoundUp(size, min)
                  && Splits(old(free), i, RoundUp(size, min), Alignment(align), offset, ptr, free, old(leaked), leaked)
      ensures forall i: nat :: FirstFit(old(free), i, Rounded(size), Alignment(align), offset) ==>
                sound ==> old(free)[i].addr <= ptr < old(free)[i].addr + Max(Alignment(align), min)
      // in an aligned heap nothing is lost except at the edges of the pool
      ensures old(Aligned()) && offset % min == 0 ==>
                Aligned() && AtEdges(leaked - old(leaked), pool, min, displacement)
      // no byte of a live block kept is changed
      ensures SameOn(old(mem[..]), mem[..], LiveBytes(Kept(old(live), old(cached), discards)))
    {
      hide Range, Bytes, LiveBytes, WellFormed, RoundUp, Separate, Partition, SameOn, Fits, PreSize, Lost, Remains,
           Cache, Max, Or, IsPow2, Pow2, AtEdges, Aligned, Passes, Rounded, Astray, Words, NoneFits, Partitioned, Sane;
      var actual, a := Rounded(size), Alignment(align);
      assert IsPow2(a) && a > 0 by { AlignmentPow2(align); }
      RoundedIs(size);
      HalfIsSane(size, align);
      AnyAddress(align);
      discards, sound := 0, true;
      SameMemory(mem[..], LiveBytes(live));
      assert old(live) - Addresses(old(cached)[..0]) == old(live);
      while true
        invariant Valid() && pool == old(pool) && leaked == old(leaked) && sound
        invariant discards <= |old(cached)| && cached == old(cached)[discards..]
        invariant live == Kept(old(live), old(cached), discards)
        invariant SameOn(old(mem[..]), mem[..], LiveBytes(live))
        invariant discards == 0 ==> free == old(free) && freemem == old(freemem)
        invariant old(Aligned()) ==> Aligned()
        invariant discards > 0 ==> NonePasses(old(free), |old(free)|, actual, a, offset)
        decreases |cached|
      {
        var found, i := Search(actual, a, offset);
        ghost var mem0, live0 := mem[..], live;
        if found {
          FirstFitUnique(old(free), free, discards, i, actual, a, offset);
          AstrayIs(free, i, actual, a, offset);
          FewerAtEdges(leaked - old(leaked), {}, pool, min, displacement);
          if Sane(size, align) {
            SaneFits(i, size, align, offset);
          }
          if actual == 0 || !Fits(free[i], actual, a, offset) {
            return 0, false, discards;
          }
          var pre := PreSize(free[i], a, offset);
          FitsMeans(free[i], actual, a, offset);
          PreAligned(free[i], a, offset);
          UnitStart(free[i].addr + pre + displacement, offset, a, min);
          ghost var b := free[i];
          ptr := Take(i, pre, actual);
          FewerAtEdges(leaked - old(leaked), Lost(b, pre, actual, min), pool, min, displacement);
          SameOnTransitive(old(mem[..]), mem0, mem[..], LiveBytes(live0), LiveBytes(live0));
          return;
        }
        ghost var cached0 := cached;
        var n := DiscardCache();
        SameOnTransitive(old(mem[..]), mem0, mem[..], LiveBytes(live0), LiveBytes(live));
        if n == 0 {
          FewerAtEdges(leaked - old(leaked), {}, pool, min, displacement);
          NothingFits(size, a, offset);
          return 0, true, discards;
        }
        DiscardsAdd(old(live), old(cached), discards, n);
        discards := discards + n;
      }
    }

    lemma {:induction false} RoundedIs(size: nat)
      requires 0 < min < Words() && size < Words()
      ensures Rounded(size) == if size + min - 1 < Words() then RoundUp(size, min) else 0
    {
      RoundWordExactly(size, min, Words());
    }

    /** Rounded sizes of at most half the address space are sane for alignments up to a unit. */
    lemma {:induction false} HalfIsSane(size: nat, align: nat)
      requires Parameters() && size > 0
      ensures 0 < align <= min && 2 * RoundUp(size, min) <= Pow2(8 * word) ==> Sane(size, align)
    {
      hide Pow2, RoundUp, IsPow2;
      UnitBelowHalf();
    }

    /** No alignment at all means all address bits. */
    lemma {:induction false} AnyAddress(align: nat)
      requires Parameters()
      ensures align == 0 ==> Max(Alignment(align), min) == Pow2(8 * word)
    {
      hide Pow2, IsPow2;
    }

    /** The first block that looks large enough decides. */
    lemma {:induction false} AstrayIs(list: seq<Block>, i: nat, size: nat, align: nat, offset: nat)
      requires align > 0 && min > 0 && FirstFit(list, i, size, align, offset)
      ensures Astray(list, size, align, offset) <==> !(size > 0 && Fits(list[i], size, align, offset))
    {
      hide Fits, Passes;
    }

    /** A block with room after the bytes that are skipped looks large enough exactly if it is, or if the
        size is larger by more than half the address space. */
    lemma {:induction false} PassesExactly(b: Block, size: nat, align: nat, offset: nat)
      requires Parameters() && align > 0 && size < Words()
      requires PreSize(b, align, offset) <= b.size && 2 * b.size < Words()
      ensures var room := b.size - PreSize(b, align, offset);
              Passes(b, size, align, offset) <==> size <= room || size > room + Pow2(8 * word) / 2
    {
      hide PreSize, IsPow2, Pow2, NotNegative;
      EvenWords();
      RoomTestExactly(b.size - PreSize(b, align, offset), size, Words());
    }

    /** For sane sizes and alignments the first block that looks large enough is. */
    lemma {:induction false} SaneFits(i: nat, size: nat, align: nat, offset: nat)
      requires Valid() && 0 < size && Sane(size, align) && (align == 0 || (IsPow2(align) && align < Words()))
      requires Alignment(align) > 0 && FirstFit(free, i, Rounded(size), Alignment(align), offset)
      ensures Rounded(size) > 0 && Fits(free[i], Rounded(size), Alignment(align), offset)
    {
      hide Range, Bytes, LiveBytes, WellFormed, RoundUp, Separate, Partition, Or, IsPow2, Pow2, Max, NotNegative,
           Rounded, Words, Cache, PreSize;
      var w, a := Words(), Alignment(align);
      RoundedIs(size);
      BlockBelowHalf(i);
      PreBelow(free[i], align, offset);
      EvenWords();
      JudgedRight(free[i].size, PreSize(free[i], a, offset), RoundUp(size, min), Max(a, min), min, w);
    }

    /** A block of memory is below half the address space. */
    lemma {:induction false} BlockBelowHalf(i: nat)
      requires Valid() && i < |free|
      ensures min <= free[i].size && 2 * free[i].size < Words()
    {
      hide Range, Bytes, LiveBytes, Separate, Cache, IsPow2, Words;
      BlockCovered(free, i);
      assert free[i].addr in Range(free[i].addr, free[i].size);
      assert free[i].addr + free[i].size - 1 in Range(free[i].addr, free[i].size);
    }

    lemma {:induction false} EvenWords()
      requires word > 0
      ensures Words() % 2 == 0 && Words() > 1
    {
      Pow2Even(8 * word);
    }

    /** Fewer bytes are skipped than the alignment, which is at most the number of words. */
    lemma {:induction false} PreBelow(b: Block, align: nat, offset: nat)
      requires Parameters() && (align == 0 || (IsPow2(align) && align < Words()))
      ensures Alignment(align) > 0 && Max(Alignment(align), min) <= Words()
      ensures PreSize(b, Alignment(align), offset) < Max(Alignment(align), min)
    {
      hide Or, IsPow2, Pow2;
      AlignmentPow2(align);
      AlignmentIsLarger(Alignment(align), min);
    }

    /** The sizes of live blocks are rounded without wrapping. */
    lemma {:induction false} LiveRounded(ptr: nat, size: nat)
      requires Valid() && Sized(Cached(ptr, size))
      ensures 2 * size < Words() && Rounded(size) == RoundUp(size, min)
    {
      hide Range, Bytes, LiveBytes, RoundUp, Separate, WellFormed, Cache, IsPow2, Rounded, Words, Partition;
      LiveInMemory(this, ptr);
      UnitBelowHalf();
      RoundedIs(size);
    }

    lemma {:induction false} UnitBelowHalf()
      requires Parameters()
      ensures 2 * min <= Words()
    {
      var i: nat :| min == Pow2(i);
      if i >= 8 * word {
        Pow2Monotone(8 * word, i);
      } else {
        Pow2Monotone(i + 1, 8 * word);
      }
    }

    /** If nothing looks large enough, nothing is. */
    lemma {:induction false} NothingFits(size: nat, align: nat, offset: nat)
      requires Valid() && 0 < size < Words() && align > 0
      requires NonePasses(free, |free|, Rounded(size), align, offset)
      ensures NoneFits(free, |free|, RoundUp(size, min), align, offset)
    {
      hide Range, Bytes, LiveBytes, RoundUp, Separate, WellFormed, Cache, IsPow2, Rounded, Words, Partition, PreSize,
           NotNegative, Or;
      RoundedIs(size);
      UnitBelowHalf();
      forall i | 0 <= i < |free| ensures !Fits(free[i], RoundUp(size, min), align, offset) {
        BlockBelowHalf(i);
        if Fits(free[i], RoundUp(size, min), align, offset) {
          assert !Passes(free[i], Rounded(size), align, offset);
          PassesExactly(free[i], RoundUp(size, min), align, offset);
        }
      }
    }

    lemma {:induction false} FitsMeans(b: Block, size: nat, align: nat, offset: nat)
      requires align > 0 && min > 0 && Fits(b, size, align, offset)
      ensures PreSize(b, align, offset) + size <= b.size
    {
    }

    /** What is skipped brings the address to the wanted physical alignment. */
    lemma {:induction false} PreAligned(b: Block, align: nat, offset: nat)
      requires IsPow2(align) && IsPow2(min) && align > 0 && min > 0
      ensures (b.addr + PreSize(b, align, offset) + displacement - offset) % Max(align, min) == 0
      ensures PreSize(b, align, offset) < Max(align, min)
    {
      hide Or, IsPow2, Max;
      AlignmentIsLarger(align, min);
      var m := Max(align, min);
      var x := offset - (b.addr + displacement);
      assert x == m * (x / m) + x % m;
      DivModUnique(x % m - x, -(x / m), m, 0);
    }

    lemma {:induction false} AlignmentPow2(align: nat)
      requires align == 0 || IsPow2(align)
      ensures IsPow2(Alignment(align)) && Alignment(align) > 0
    {
      hide Pow2;
      if align == 0 {
        assert Alignment(align) == Pow2(8 * word);
      }
    }

    lemma {:induction false} FirstFitUnique(list: seq<Block>, now: seq<Block>, discards: nat, i: nat, size: nat,
                                            align: nat, offset: nat)
      requires align > 0 && min > 0 && FirstFit(now, i, size, align, offset)
      requires discards == 0 ==> now == list
      requires discards > 0 ==> NonePasses(list, |list|, size, align, offset)
      ensures forall j: nat :: FirstFit(list, j, size, align, offset) ==> discards == 0 && j == i
    {
      hide Passes;
    }
  }

  lemma {:induction false} LiveInMemory(h: Pool, p: nat)
    requires h.Valid() && p in h.live
    ensures p > 0 && p + h.live[p] <= h.mem.Length && Range(p, h.live[p]) <= LiveBytes(h.live)
  {
    hide Range, Separate, WellFormed, Bytes, IsPow2;
    assert p + h.live[p] - 1 in Range(p, h.live[p]);
    assert Range(p, h.live[p]) <= LiveBytes(h.live);
  }

  // ----- Accounting

  /** The free memory counter and the live bytes add up to the size of the pool. */
  lemma {:induction false} Conserved(h: Pool)
    requires h.Valid()
    ensures h.freemem + |LiveBytes(h.live)| == |h.pool|
    ensures h.freemem + SizeSum(h.live) == |h.pool|
  {
    hide Range, Bytes, LiveBytes, SizeSum, WellFormed, Partition, Pool.Cache;
    LiveSize(h.live);
    PartitionSize(Bytes(h.free), LiveBytes(h.live), h.leaked, h.pool, h.freemem);
  }

  lemma {:induction false} PartitionSize(free: set<int>, live: set<int>, leaked: set<int>, pool: set<int>, freemem: int)
    requires Partition(free, live, leaked, pool, freemem)
    ensures freemem + |live| == |pool|
  {
    DisjointSize(free, leaked);
    DisjointSize(free + leaked, live);
    assert free + leaked + live == pool;
  }

  /** Live bytes are counted by the sizes of the live blocks. */
  lemma {:induction false} LiveSize(live: map<nat, nat>)
    requires Separate(live)
    ensures |LiveBytes(live)| == SizeSum(live)
    decreases |live|
  {
    hide Range, LiveBytes;
    if live == map[] {
      assert LiveBytes(live) == {} by { NoLive(live); }
    } else {
      var a := Pick(live);
      LiveRemove(live, a);
      assert |live - {a}| < |live| by { Smaller(live, a); }
      LiveSize(live - {a});
      RangeSize(a, live[a]);
      DisjointSize(LiveBytes(live - {a}), Range(a, live[a]));
      assert LiveBytes(live) == LiveBytes(live - {a}) + Range(a, live[a]);
    }
  }

  lemma {:induction false} NoLive(live: map<nat, nat>)
    requires live == map[]
    ensures LiveBytes(live) == {}
  {
  }

  lemma {:induction false} Smaller(live: map<nat, nat>, a: nat)
    requires a in live
    ensures |live - {a}| < |live|
  {
    var rest := live - {a};
    assert rest.Keys == live.Keys - {a};
    assert |rest| == |rest.Keys| && |live| == |live.Keys|;
  }

  ghost function Pick(live: map<nat, nat>): (a: nat)
    requires live != map[]
    ensures a in live
  {
    assert live.Keys != {};
    assert exists a :: a in live.Keys;
    var a :| a in live;
    a
  }

  /** The sizes of all live blocks added up. */
  ghost function SizeSum(live: map<nat, nat>): nat
    decreases |live|
  {
    if live == map[] then 0 else
      var a := Pick(live);
      Smaller(live, a);
      live[a] + SizeSum(live - {a})
  }

  /** Freeing a block right after it was allocated gives back the very same free list, provided
      that nothing was lost when it was taken. */
  method AllocThenFree(h: Pool, size: nat, align: nat, offset: nat)
    requires h.Valid() && 0 < size < h.Words() && (align == 0 || (IsPow2(align) && align < h.Words()))
    requires var actual := h.Rounded(size);
             (exists i: nat :: h.FirstFit(h.free, i, actual, h.Alignment(align), offset))
             && !h.Astray(h.free, actual, h.Alignment(align), offset)
    modifies h`free, h`freemem, h`live, h`leaked, h`cached, h`clock, h.mem
    ensures h.Valid() && h.live == old(h.live) && h.cached == old(h.cached) && h.freemem == old(h.freemem)
    ensures h.leaked == old(h.leaked) <==> h.free == old(h.free)
    ensures old(h.Aligned()) && offset % h.min == 0 && Whole(h.pool, h.min, h.displacement) ==> h.free == old(h.free)
    ensures SameOn(old(h.mem[..]), h.mem[..], LiveBytes(h.live))
  {
    hide Range, Bytes, LiveBytes, RoundUp, Separate, WellFormed, Partition, SameOn, IsPow2, Pool.Fits, Pool.PreSize,
         Remains, Lost, Pool.Aligned, Addresses, Pool.NonePasses, Whole, AtEdges, Pow2, Pool.Passes, Pool.Astray,
         Pool.Rounded, Pool.Words;
    ghost var mem0, live0 := h.mem[..], h.live;
    NoneDiscarded(h.live, h.cached);
    NoNullBlock(h);
    var ptr, sound, discards := h.AllocBlock(size, align, offset);
    ghost var mem1 := h.mem[..];
    assert discards == 0 && sound;
    assert ptr != 0;
    if old(h.Aligned()) && offset % h.min == 0 && Whole(h.pool, h.min, h.displacement) {
      NothingLeaked(h, old(h.leaked));
    }
    h.FreeBlock(ptr, size);
    assert h.live == live0;
    SameOnTransitive(mem0, mem1, h.mem[..], LiveBytes(live0), LiveBytes(live0));
    SameFree(old(h.free), h.free, LiveBytes(live0), old(h.leaked), h.leaked, h.pool, old(h.freemem), h.freemem, h.min);
  }

  /** In a pool of whole units there are no edges, so nothing is lost at all. */
  lemma {:induction false} NothingLeaked(h: Pool, before: set<int>)
    requires h.Valid() && Whole(h.pool, h.min, h.displacement)
    requires before <= h.leaked && AtEdges(h.leaked - before, h.pool, h.min, h.displacement)
    ensures h.leaked == before
  {
    hide Range, Bytes, LiveBytes, Separate, WellFormed, Whole, AtEdges, Pool.Cache;
    NoEdges(h.leaked - before, h.pool, h.min, h.displacement);
  }

  lemma {:induction false} NothingApart(r: set<int>, min: nat, displacement: int)
    requires min > 0
    ensures UnitsApart({}, r, min, displacement)
  {
  }

  lemma {:induction false} OneBlock(list: seq<Block>, start: nat, size: nat, min: nat)
    requires WellFormed(list, min) && min > 0 && size >= min && Bytes(list) == Range(start, size)
    ensures list == [Block(start, size)]
  {
    hide Range, Bytes;
    BytesOne(Block(start, size));
    BytesDetermineList(list, [Block(start, size)]);
  }

  lemma {:induction false} NoNullBlock(h: Pool)
    requires h.Valid()
    ensures forall i :: 0 <= i < |h.free| ==> h.free[i].addr > 0
  {
    hide Range, Bytes, LiveBytes, Separate;
    forall i | 0 <= i < |h.free| ensures h.free[i].addr > 0 {
      BlockCovered(h.free, i);
      assert h.free[i].addr in Range(h.free[i].addr, h.free[i].size);
    }
  }

  lemma {:induction false} NoneDiscarded(live: map<nat, nat>, cached: seq<Cached>)
    ensures live - Addresses(cached[..0]) == live && cached[0..] == cached
  {
  }

  /** With the same live bytes in the same pool, the free list is the same exactly when the leaked
      bytes are. */
  lemma {:induction false} SameFree(list: seq<Block>, list': seq<Block>, live: set<int>, leaked: set<int>,
                                    leaked': set<int>, pool: set<int>, freemem: int, freemem': int, min: nat)
    requires WellFormed(list, min) && WellFormed(list', min) && min > 0
    requires Partition(Bytes(list), live, leaked, pool, freemem)
             && Partition(Bytes(list'), live, leaked', pool, freemem')
    ensures list == list' <==> leaked == leaked'
  {
    hide Range, Bytes;
    assert leaked == pool - live - Bytes(list) && leaked' == pool - live - Bytes(list');
    if leaked == leaked' {
      assert Bytes(list) == pool - live - leaked == Bytes(list');
      BytesDetermineList(list, list');
    }
  }

  /** Taking whole units from a list of whole units loses bytes only at the edges of the pool. */
  lemma {:induction false} TakeWhole(list: seq<Block>, i: nat, pre: nat, size: nat, pool: set<int>, min: nat,
                                     displacement: int)
    requires i < |list| && WellFormed(list, min) && min > 0 && size > 0 && pre + size <= list[i].size
    requires WholeIn(Bytes(list), pool, min, displacement)
    requires (list[i].addr + pre + displacement) % min == 0 && size % min == 0
    ensures AtEdges(Lost(list[i], pre, size, min), pool, min, displacement)
    ensures WholeIn(Bytes(list[..i] + Remains(list[i], pre, size, min) + list[i + 1..]), pool, min, displacement)
  {
    hide Bytes, WholeIn, AtEdges, Remains, Range, Lost;
    LostAtEdges(list, i, pre, size, pool, min, displacement);
    RangeWhole(list[i].addr + pre, size, min, displacement);
    SplitList(list, i, pre, size, min);
    WholeInDifference(Bytes(list), Range(list[i].addr + pre, size), Lost(list[i], pre, size, min), pool, min,
      displacement);
  }

  lemma {:induction false} FewerAtEdges(s: set<int>, t: set<int>, pool: set<int>, min: nat, displacement: int)
    requires min > 0 && s <= t
    ensures t == {} || AtEdges(t, pool, min, displacement) ==> AtEdges(s, pool, min, displacement)
  {
    hide Inside;
  }

  /** An address that is aligned to an offset of whole units starts a unit. */
  lemma {:induction false} UnitStart(p: int, offset: nat, align: nat, min: nat)
    requires IsPow2(align) && IsPow2(min) && align > 0 && min > 0 && (p - offset) % Max(align, min) == 0
    ensures offset % min == 0 ==> p % min == 0
  {
    hide IsPow2, Or, Max;
    if offset % min == 0 {
      AlignmentIsLarger(align, min);
      MultipleOfMultiple(p - offset, Max(align, min), min);
      ZeroMinus(offset, min);
      DifferenceMultiple(0 - offset, p - offset, min);
    }
  }

  lemma {:induction false} MultipleOfMultiple(x: int, m: nat, min: nat)
    requires min > 0 && m > 0 && m % min == 0 && x % m == 0
    ensures x % min == 0
  {
    var p, k := x / m, m / min;
    assert x == p * m && m == k * min;
    MulAssoc(p, k, min);
    DivModUnique(x, p * k, min, 0);
  }

  /** With an offset that is not a multiple of the unit, and an alignment of no more than a unit, a block
      that starts a unit loses its first bytes, wherever in the heap it lies. */
  lemma {:induction false} OddOffsetLoses(h: Pool, b: Block, size: nat, align: nat, offset: nat)
    requires h.min > 0 && IsPow2(h.min) && (b.addr + h.displacement) % h.min == 0
    requires IsPow2(align) && 0 < align <= h.min && offset % h.min != 0 && h.Fits(b, size, align, offset)
    ensures var pre := h.PreSize(b, align, offset);
            pre == offset % h.min && pre + size <= b.size && b.addr in Lost(b, pre, size, h.min)
  {
    hide Or, IsPow2, Range;
    AlignmentIsLarger(align, h.min);
    var a := b.addr + h.displacement;
    var m, k := h.min, a / h.min;
    assert a == k * m;
    DivModUnique(offset - a, offset / m - k, m, offset % m);
  }

  lemma {:induction false} DiscardsAdd(live: map<nat, nat>, cached: seq<Cached>, d: nat, n: nat)
    requires d + n <= |cached|
    ensures live - Addresses(cached[..d]) - Addresses(cached[d..][..n]) == live - Addresses(cached[..d + n])
    ensures cached[d..][n..] == cached[d + n..]
  {
    AddressesAppend(cached[..d], cached[d..][..n]);
    assert cached[..d] + cached[d..][..n] == cached[..d + n];
  }

  lemma {:induction false} AddressesAppend(a: seq<Cached>, b: seq<Cached>)
    ensures Addresses(a + b) == Addresses(a) + Addresses(b)
  {
    forall x | x in Addresses(a) + Addresses(b) ensures x in Addresses(a + b) {
      if x in Addresses(a) {
        var i :| 0 <= i < |a| && a[i].addr == x;
        assert (a + b)[i].addr == x;
      } else {
        var i :| 0 <= i < |b| && b[i].addr == x;
        assert (a + b)[|a| + i].addr == x;
      }
    }
  }

  /** Taking part of a free block moves its bytes from the free to the live ones. */
  lemma {:induction false} TakeFromFree(list: seq<Block>, i: nat, pre: nat, size: nat, min: nat, live: map<nat, nat>,
                                        leaked: set<int>, pool: set<int>, freemem: int)
    requires i < |list| && WellFormed(list, min) && min > 0 && size > 0 && pre + size <= list[i].size
    requires Separate(live) && (forall a :: a in live ==> live[a] > 0)
    requires Partition(Bytes(list), LiveBytes(live), leaked, pool, freemem)
    ensures var ptr := list[i].addr + pre;
            var list' := list[..i] + Remains(list[i], pre, size, min) + list[i + 1..];
            && WellFormed(list', min) && ptr in pool && ptr !in live
            && Bytes(list) !! LiveBytes(live) && Bytes(list') !! LiveBytes(live)
            && Range(ptr, size) !! LiveBytes(live) && Separate(live[ptr := size])
            && LiveBytes(live[ptr := size]) == LiveBytes(live) + Range(ptr, size)
            && Partition(Bytes(list'), LiveBytes(live[ptr := size]), leaked + Lost(list[i], pre, size, min), pool,
              freemem - size)
  {
    hide Range, Bytes, LiveBytes, Lost, Remains, WellFormed, Separate, Partition;
    var ptr := list[i].addr + pre;
    SplitList(list, i, pre, size, min);
    Taken(list, i, pre, size, min);
    PartitionAlloc(Bytes(list), LiveBytes(live), leaked, pool, freemem, Range(ptr, size),
      Lost(list[i], pre, size, min));
    assert ptr in Range(ptr, size);
    LiveCovers(live);
    LiveAdd(live, ptr, size);
    RangeSize(ptr, size);
  }

  lemma {:induction false} Taken(list: seq<Block>, i: nat, pre: nat, size: nat, min: nat)
    requires i < |list| && pre + size <= list[i].size
    ensures Range(list[i].addr + pre, size) <= Bytes(list)
    ensures Lost(list[i], pre, size, min) <= Bytes(list)
    ensures Range(list[i].addr + pre, size) !! Lost(list[i], pre, size, min)
  {
    hide Range, Bytes, Lost, Remains;
    BlockCovered(list, i);
    SplitPartition(list[i], pre, size, min);
  }

  lemma {:induction false} LiveCovers(live: map<nat, nat>)
    requires forall a :: a in live ==> live[a] > 0
    ensures forall a :: a in live ==> a in LiveBytes(live)
  {
    forall a | a in live ensures a in LiveBytes(live) {
      assert a in Range(a, live[a]);
    }
  }

  lemma {:induction false} Remainder(x: int, m: nat)
    requires m > 0
    ensures 0 <= x % m < m
  {
  }

  ghost function Addresses(cs: seq<Cached>): set<nat> {
    set i | 0 <= i < |cs| :: cs[i].addr
  }

  lemma {:induction false} AddressesSnoc(cs: seq<Cached>, n: nat)
    requires n < |cs|
    ensures Addresses(cs[..n + 1]) == Addresses(cs[..n]) + {cs[n].addr}
  {
    assert cs[..n + 1][n].addr == cs[n].addr;
    forall a | a in Addresses(cs[..n]) ensures a in Addresses(cs[..n + 1]) {
      var i :| 0 <= i < n && cs[..n][i].addr == a;
      assert cs[..n + 1][i].addr == a;
    }
  }

  lemma {:induction false} FewerBytes(live: map<nat, nat>, p: nat)
    ensures LiveBytes(live - {p}) <= LiveBytes(live)
  {
    var live' := live - {p};
    forall x | x in LiveBytes(live') ensures x in LiveBytes(live) {
      var a :| a in live' && x in Range(a, live'[a]);
      assert a in live && x in Range(a, live[a]);
    }
  }

  lemma {:induction false} PositiveMultiple(r: nat, min: nat)
    requires r > 0 && min > 0 && r % min == 0
    ensures r >= min
  {
    if r < min {
      DivModUnique(r, 0, min, r);
    }
  }

  lemma {:induction false} RoundedDown(len: nat, min: nat)
    requires len >= min > 0
    ensures min <= len - len % min <= len && (len - len % min) % min == 0
  {
    var rest := len - len % min;
    DivModUnique(rest, len / min, min, 0);
    PositiveMultiple(rest, min);
  }

  /** Free, live and leaked bytes partition the pool; the counter counts what is not live. */
  ghost predicate Partition(free: set<int>, live: set<int>, leaked: set<int>, pool: set<int>, freemem: int) {
    free !! live && free !! leaked && live !! leaked && pool == free + live + leaked
    && freemem == |free| + |leaked|
  }

  lemma {:induction false} FreeInPool(free: set<int>, live: set<int>, leaked: set<int>, pool: set<int>, freemem: int)
    requires Partition(free, live, leaked, pool, freemem)
    ensures free <= pool && leaked <= pool
  {
  }

  lemma {:induction false} PartitionFree(free: set<int>, live: set<int>, leaked: set<int>, pool: set<int>,
                                         freemem: int, ptr: nat, size: nat)
    requires Partition(free, live, leaked, pool, freemem) && Range(ptr, size) <= live
    ensures Range(ptr, size) !! free && (free + Range(ptr, size)) !! (live - Range(ptr, size))
    ensures Partition(free + Range(ptr, size), live - Range(ptr, size), leaked, pool, freemem + size)
  {
    hide Range;
    RangeSize(ptr, size);
    DisjointSize(free, Range(ptr, size));
  }

  lemma {:induction false} PartitionPopulate(free: set<int>, live: set<int>, leaked: set<int>, pool: set<int>,
                                             freemem: int, ptr: nat, size: nat)
    requires Partition(free, live, leaked, pool, freemem) && Range(ptr, size) !! pool
    ensures Range(ptr, size) !! free && (free + Range(ptr, size)) !! live
    ensures Partition(free + Range(ptr, size), live, leaked, pool + Range(ptr, size), freemem + size)
  {
    hide Range;
    RangeSize(ptr, size);
    DisjointSize(free, Range(ptr, size));
  }

  lemma {:induction false} PartitionAlloc(free: set<int>, live: set<int>, leaked: set<int>, pool: set<int>,
                                          freemem: int, taken: set<int>, lost: set<int>)
    requires Partition(free, live, leaked, pool, freemem) && taken <= free && lost <= free && taken !! lost
    ensures free !! live && (free - taken - lost) !! live && taken !! live && taken <= pool
    ensures Partition(free - taken - lost, live + taken, leaked + lost, pool, freemem - |taken|)
  {
    var free' := free - taken - lost;
    DisjointSize(leaked, lost);
    ThreeWay(free, free', taken, lost);
  }

  lemma {:induction false} ThreeWay(free: set<int>, free': set<int>, taken: set<int>, lost: set<int>)
    requires taken <= free && lost <= free && taken !! lost && free' == free - taken - lost
    ensures |free| == |free'| + |taken| + |lost|
  {
    assert free == free' + (taken + lost);
    DisjointSize(free', taken + lost);
    DisjointSize(taken, lost);
  }

  lemma {:induction false} DisjointSize(a: set<int>, b: set<int>)
    requires a !! b
    ensures |a + b| == |a| + |b|
  {
  }

  /** Two memories agree on a set of addresses. */
  ghost predicate SameOn(a: seq<byte>, b: seq<byte>, xs: set<int>) {
    |a| == |b| && forall x :: x in xs && 0 <= x < |a| ==> a[x] == b[x]
  }

  lemma {:induction false} SameMemory(a: seq<byte>, xs: set<int>)
    ensures SameOn(a, a, xs)
  {
  }

  lemma {:induction false} SameOnFewer(m: seq<byte>, m': seq<byte>, xs: set<int>, ys: set<int>)
    requires SameOn(m, m', xs) && ys <= xs
    ensures SameOn(m, m', ys)
  {
  }

  lemma {:induction false} SameOnTransitive(a: seq<byte>, b: seq<byte>, c: seq<byte>, xs: set<int>, ys: set<int>)
    requires SameOn(a, b, xs) && SameOn(b, c, ys) && ys <= xs
    ensures SameOn(a, c, ys)
  {
  }

  /** The blocks before index `i` end before an address, with a gap. */
  ghost predicate Below(list: seq<Block>, i: nat, addr: nat)
    requires i <= |list|
  {
    forall j :: 0 <= j < i ==> list[j].End() < addr
  }

  /** The blocks from index `i` on start at or after an address. */
  ghost predicate Above(list: seq<Block>, i: nat, addr: nat)
    requires i <= |list|
  {
    forall j :: i <= j < |list| ==> list[j].addr >= addr
  }

  /** A block disjoint from the list lies wholly before or after each block of the list, and if it
      lies before one then before all that follow. */
  lemma {:induction false} Beside(list: seq<Block>, i: nat, b: Block, min: nat)
    requires WellFormed(list, min) && min > 0 && i < |list| && b.size > 0 && Range(b.addr, b.size) !! Bytes(list)
    ensures b.End() <= list[i].addr || list[i].End() <= b.addr
    ensures b.End() <= list[i].addr ==> Above(list, i, b.End())
    ensures b.End() < list[i].addr ==> Above(list, i, b.End() + 1)
    ensures Below(list, i, b.addr) && list[i].End() < b.addr ==> Below(list, i + 1, b.addr)
  {
    hide Range, Bytes;
    BlockCovered(list, i);
    assert b.addr in Range(b.addr, b.size);
    assert list[i].addr in Range(list[i].addr, list[i].size);
  }

  lemma {:induction false} MergeRange(a: Block, b: Block)
    requires a.End() == b.addr
    ensures Range(a.addr, a.size + b.size) == Range(a.addr, a.size) + Range(b.addr, b.size)
  {
    RangeSplit(a.addr, a.size, b.size);
  }

  /** Taking out the block that `b` touches from above, in order to enlarge it. */
  lemma {:induction false} MergePreceding(list: seq<Block>, i: nat, b: Block, min: nat)
    requires WellFormed(list, min) && min > 0 && i < |list| && list[i].End() == b.addr
    requires Range(b.addr, b.size) !! Bytes(list) && b.size > 0 && Below(list, i, b.addr)
    ensures var list', b' := list[..i] + list[i + 1..], Block(list[i].addr, list[i].size + b.size);
            && WellFormed(list', min) && Range(b'.addr, b'.size) !! Bytes(list')
            && Bytes(list') + Range(b'.addr, b'.size) == Bytes(list) + Range(b.addr, b.size)
            && Below(list', i, b'.addr) && Above(list', i, b'.End())
  {
    hide Range, Bytes;
    BytesRemove(list, i);
    MergeRange(list[i], b);
    BlockCovered(list, i);
    var list' := list[..i] + list[i + 1..];
    forall j | i <= j < |list'| ensures list'[j].addr >= b.End() {
      assert list'[j] == list[j + 1];
      Beside(list, j + 1, b, min);
    }
  }

  /** Inserting a block that touches neither neighbour. */
  lemma {:induction false} InsertBetween(list: seq<Block>, i: nat, b: Block, min: nat)
    requires WellFormed(list, min) && i <= |list| && b.size >= min
    requires Below(list, i, b.addr) && Above(list, i, b.End() + 1)
    ensures var list' := list[..i] + [b] + list[i..];
            WellFormed(list', min) && Bytes(list') == Bytes(list) + Range(b.addr, b.size)
  {
    hide Range, Bytes;
    BytesInsert(list, i, b);
  }

  /** Inserting a block that touches the one that follows. */
  lemma {:induction false} MergeFollowing(list: seq<Block>, i: nat, b: Block, min: nat)
    requires WellFormed(list, min) && i < |list| && b.size >= min
    requires Below(list, i, b.addr) && b.End() == list[i].addr
    ensures var list' := list[..i] + [Block(b.addr, b.size + list[i].size)] + list[i + 1..];
            WellFormed(list', min) && Bytes(list') == Bytes(list) + Range(b.addr, b.size)
  {
    hide Range, Bytes;
    var m := Block(b.addr, b.size + list[i].size);
    BytesAppend(list[..i] + [m], list[i + 1..]);
    BytesAppend(list[..i], [m]);
    BytesOne(m);
    MergeRange(b, list[i]);
    BytesAt(list, i);
  }
}
