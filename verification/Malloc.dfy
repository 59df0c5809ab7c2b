/** Sized allocations on top of the block allocator: each allocation starts with a word that holds
    its total size, which freeing and reallocating read back from memory.
  */
module Malloc {
  import opened Bits
  import opened FreeList
  import opened Heap
  import opened HeapWords
  import opened Allocator

  /** A pointer as callers see it: null, the address of nothing, or the address of some data. */
  datatype Pointer = Null | Nowhere | At(addr: nat)

  // ----- Words in memory, lowest byte first

  function Word(m: seq<byte>): nat {
    if m == [] then 0 else m[0] + 256 * Word(m[1..])
  }

  function WordBytes(x: nat, n: nat): (m: seq<byte>)
    ensures |m| == n
  {
    if n == 0 then [] else [x % 256] + WordBytes(x / 256, n - 1)
  }

  lemma {:induction false} WordRoundTrip(x: nat, n: nat)
    requires x < Pow2(8 * n)
    ensures Word(WordBytes(x, n)) == x
  {
    if n > 0 {
      Pow2Add(8, 8 * (n - 1));
      assert Pow2(8) == 256 by { Pow2Values(); }
      assert Pow2(8 * n) == 256 * Pow2(8 * (n - 1));
      WordRoundTrip(x / 256, n - 1);
      assert WordBytes(x, n)[1..] == WordBytes(x / 256, n - 1);
    }
  }

  // ----- Access to memory

  method StoreWord(h: Pool, a: nat, x: nat)
    requires a + h.word <= h.mem.Length && x < h.Words()
    modifies h.mem
    ensures Word(h.mem[a..a + h.word]) == x
    ensures forall y :: 0 <= y < h.mem.Length && !(a <= y < a + h.word) ==> h.mem[y] == old(h.mem[y])
  {
    var m := WordBytes(x, h.word);
    WordRoundTrip(x, h.word);
    for i := 0 to h.word
      invariant forall k :: 0 <= k < i ==> h.mem[a + k] == m[k]
      invariant forall y :: 0 <= y < h.mem.Length && !(a <= y < a + h.word) ==> h.mem[y] == old(h.mem[y])
    {
      h.mem[a + i] := m[i];
    }
    assert h.mem[a..a + h.word] == m;
  }

  method LoadWord(h: Pool, a: nat) returns (x: nat)
    requires a + h.word <= h.mem.Length
    ensures x == Word(h.mem[a..a + h.word])
  {
    x := Word(h.mem[a..a + h.word]);
  }

  /** Copy between regions that do not overlap. */
  method CopyBytes(h: Pool, to: nat, from: nat, n: nat)
    requires to + n <= h.mem.Length && from + n <= h.mem.Length && (to + n <= from || from + n <= to || n == 0)
    modifies h.mem
    ensures h.mem[to..to + n] == old(h.mem[from..from + n])
    ensures forall y :: 0 <= y < h.mem.Length && !(to <= y < to + n) ==> h.mem[y] == old(h.mem[y])
  {
    for i := 0 to n
      invariant forall y :: to <= y < to + i ==> h.mem[y] == old(h.mem[from + (y - to)])
      invariant forall y :: 0 <= y < h.mem.Length && !(to <= y < to + i) ==> h.mem[y] == old(h.mem[y])
    {
      h.mem[to + i] := h.mem[from + i];
    }
  }

  // ----- Allocations

  /** An allocation of `total` bytes with its data at address `a`: the word before the data holds the
      total size, and the block is live and not one that a cache may give back. */
  ghost predicate Allocated(h: Pool, a: nat, total: nat)
    reads h, h.mem
  {
    0 < h.word <= h.min && total > 0 && h.word <= a <= h.mem.Length
    && (a - h.word) in h.live && h.live[a - h.word] == RoundUp(total, h.min)
    && a - h.word + RoundUp(total, h.min) <= h.mem.Length
    && (forall i :: 0 <= i < |h.cached| ==> h.cached[i].addr != a - h.word)
    && Word(h.mem[a - h.word..a]) == total
  }

  /** The first `n` bytes of the data of an allocation. */
  ghost function Data(h: Pool, a: nat, n: nat): seq<byte>
    requires a + n <= h.mem.Length
    reads h.mem
  {
    h.mem[a..a + n]
  }

  /** The bytes behind the header, up to the end of the block. */
  ghost function Room(h: Pool, total: nat): nat
    requires 0 < h.word <= h.min && total > 0
  {
    AtLeastOneUnit(total, h.min);
    RoundUp(total, h.min) - h.word
  }

  lemma {:induction false} AtLeastOneUnit(total: nat, min: nat)
    requires 0 < total && 0 < min
    ensures RoundUp(total, min) >= min
  {
    hide RoundUp;
    if total <= min {
      OneUnit(total, min);
    }
  }

  /** A size is sane: adding the header does not wrap, and the total is sane. */
  ghost predicate SaneSize(h: Pool, size: nat)
    requires h.min > 0
  {
    size + h.word < h.Words() && h.Sane(size + h.word, 1)
  }

  lemma {:induction false} HalfIsSaneSize(h: Pool, size: nat)
    requires h.Valid()
    ensures 2 * RoundUp(size + h.word, h.min) <= Pow2(8 * h.word) ==> SaneSize(h, size)
  {
    hide Pool.Sane, Pow2, RoundUp, Partition, WellFormed, Separate, IsPow2;
    h.HalfIsSane(size + h.word, 1);
  }

  /** Allocate a sized block. */
  method AllocSized(h: Pool, size: nat) returns (block: nat, sound: bool, ghost discards: nat)
    requires h.Valid() && 0 < size < h.Words()
    modifies h`free, h`freemem, h`live, h`leaked, h`cached, h`clock, h.mem
    ensures h.Valid() && h.pool == old(h.pool)
    ensures discards <= |old(h.cached)| && h.cached == old(h.cached)[discards..]
    // astray
    ensures !sound ==> block == 0 && LosesWay(h, Total(size, h.word, h.Words()))
    ensures SaneSize(h, size) ==> sound
    // no memory
    ensures sound && block == 0 ==>
              h.cached == [] && h.NoneFits(h.free, |h.free|, RoundUp(Total(size, h.word, h.Words()), h.min), 1, 0)
    ensures block == 0 ==> h.live == h.Kept(old(h.live), old(h.cached), discards)
    // an allocation
    ensures block != 0 ==> block !in h.Kept(old(h.live), old(h.cached), discards)
    ensures block != 0 ==>
              var total, kept := Total(size, h.word, h.Words()), h.Kept(old(h.live), old(h.cached), discards);
              && Allocated(h, block + h.word, total) && h.live == kept[block := RoundUp(total, h.min)]
              && Range(block, RoundUp(total, h.min)) !! LiveBytes(kept)
    ensures SameOn(old(h.mem[..]), h.mem[..], LiveBytes(h.Kept(old(h.live), old(h.cached), discards)))
  {
    hide Range, LiveBytes, RoundUp, Partition, Separate, WellFormed, Bytes, IsPow2, Pow2, Word, Total, Pool.Sane,
         Pool.Rounded, Pool.Astray, Pool.NoneFits, Pool.NonePasses, Pool.Words;
    assert IsPow2(1) && 1 < h.Words() by { OneIsPow2(); h.EvenWords(); }
    TotalIs(size, h.word, h.Words());
    var total := Total(size, h.word, h.Words());
    if total == 0 {
      SameMemory(h.mem[..], LiveBytes(h.live));
      NoneDiscarded(h.live, h.cached);
      return 0, false, 0;
    }
    block, sound, discards := h.AllocBlock(total, 1, 0);
    if block != 0 {
      ghost var kept := h.Kept(old(h.live), old(h.cached), discards);
      LiveInMemory(h, block);
      AtLeastOneUnit(total, h.min);
      ghost var mem0 := h.mem[..];
      StoreWord(h, block, total);
      Outside(mem0, h.mem[..], block, h.word, RoundUp(total, h.min), LiveBytes(kept));
      SameOnTransitive(old(h.mem[..]), mem0, h.mem[..], LiveBytes(kept), LiveBytes(kept));
      assert forall i :: 0 <= i < |h.cached| ==> h.cached[i].addr != block by {
        CachedKept(old(h.live), old(h.cached), discards);
      }
    }
  }

  /** An allocation with this total size goes astray: the size is zero, or the first block that looks large
      enough is not. */
  ghost predicate LosesWay(h: Pool, total: nat)
    requires h.min > 0
    reads h`free
  {
    total == 0 || h.Astray(h.free, h.Rounded(total), 1, 0)
  }

  lemma {:induction false} OneIsPow2()
    ensures IsPow2(1)
  {
    assert Pow2(0) == 1;
  }

  /** Writing inside a block leaves the bytes outside it alone. */
  lemma {:induction false} Outside(m: seq<byte>, m': seq<byte>, p: nat, n: nat, size: nat, others: set<int>)
    requires |m| == |m'| && n <= size && Range(p, size) !! others
    requires forall y :: 0 <= y < |m| && !(p <= y < p + n) ==> m'[y] == m[y]
    ensures SameOn(m, m', others)
  {
    hide Range;
    forall x | x in others && 0 <= x < |m| ensures m[x] == m'[x] {
      assert x !in Range(p, size);
    }
  }

  lemma {:induction false} CachedKept(live: map<nat, nat>, cached: seq<Cached>, n: nat)
    requires n <= |cached| && (forall i :: 0 <= i < |cached| ==> cached[i].addr in live)
    requires forall i, j :: 0 <= i < j < |cached| ==> cached[i].addr != cached[j].addr
    ensures forall i :: 0 <= i < |cached[n..]| ==> cached[n..][i].addr in live - Addresses(cached[..n])
  {
  }

  /** Free an allocation, whose size is read from the word before its data. */
  method FreeSized(h: Pool, a: nat, ghost total: nat)
    requires h.Valid() && Allocated(h, a, total)
    modifies h`free, h`freemem, h`live, h`clock, h.mem
    ensures h.Valid() && h.live == old(h.live) - {a - h.word}
    ensures SameOn(old(h.mem[..]), h.mem[..], LiveBytes(h.live))
  {
    hide Range, LiveBytes, RoundUp, Partition, Separate, WellFormed, Bytes, IsPow2, Word, SameOn, Pool.Words;
    LiveInMemory(h, a - h.word);
    var size := LoadWord(h, a - h.word);
    h.FreeBlock(a - h.word, size);
  }

  /** An allocation survives whatever leaves its block live and its bytes alone. */
  lemma {:induction false} AllocationKept(h: Pool, m: seq<byte>, a: nat, total: nat, n: nat)
    requires h.Valid() && total > 0 && h.word <= a && (a - h.word) in h.live
    requires h.live[a - h.word] == RoundUp(total, h.min) && n <= Room(h, total)
    requires forall i :: 0 <= i < |h.cached| ==> h.cached[i].addr != a - h.word
    requires SameOn(m, h.mem[..], LiveBytes(h.live)) && a + n <= |m| && Word(m[a - h.word..a]) == total
    ensures Allocated(h, a, total) && Data(h, a, n) == m[a..a + n]
  {
    hide Range, LiveBytes, Partition, Separate, WellFormed, Bytes, IsPow2, Word, SameOn, RoundUp, Pool.Words;
    LiveInMemory(h, a - h.word);
    KeptInside(h, m, a - h.word, h.word + n);
    SlicesKept(m, h.mem[..], a - h.word, a, a + n);
    assert h.mem[..][a - h.word..a] == h.mem[a - h.word..a];
    assert h.mem[..][a..a + n] == h.mem[a..a + n];
  }

  /** Copy the old data to a new allocation and free the old one. */
  method MoveTo(h: Pool, from: nat, to: nat, n: nat, ghost oldTotal: nat, ghost newTotal: nat)
    requires h.Valid() && Allocated(h, from, oldTotal) && Allocated(h, to, newTotal) && to != from
    requires n <= Room(h, oldTotal) && n <= Room(h, newTotal)
    modifies h`free, h`freemem, h`live, h`clock, h.mem
    ensures h.Valid() && h.live == old(h.live) - {from - h.word}
    ensures Allocated(h, to, newTotal)
    ensures Data(h, to, n) == old(Data(h, from, n))
    ensures SameOn(old(h.mem[..]), h.mem[..], LiveBytes(old(h.live) - {from - h.word} - {to - h.word}))
  {
    hide Pool.Valid, Range, LiveBytes, RoundUp, Partition, Separate, WellFormed, Bytes, IsPow2, Word, SameOn,
         Pool.Words;
    ghost var rest := h.live - {from - h.word} - {to - h.word};
    CopyData(h, from, to, oldTotal, newTotal, n);
    ghost var mem1 := h.mem[..];
    assert Word(mem1[to - h.word..to]) == newTotal by {
      assert mem1[to - h.word..to] == h.mem[to - h.word..to];
    }
    FreeSized(h, from, oldTotal);
    AllocationKept(h, mem1, to, newTotal, n);
    Submap(h.live, rest);
    SameOnFewer(mem1, h.mem[..], LiveBytes(h.live), LiveBytes(rest));
    SameOnTransitive(old(h.mem[..]), mem1, h.mem[..], LiveBytes(rest), LiveBytes(rest));
  }

  /** Moving an allocation to one for a new size would leave one of the blocks. */
  predicate MoveOverruns(h: Pool, oldTotal: nat, newSize: nat)
    requires h.min > 0
  {
    Overruns(oldTotal, newSize, h.word, h.min, h.Words())
  }

  /** Move the old data to a new allocation, unless that would leave one of the blocks. */
  method MoveInside(h: Pool, from: nat, to: nat, newSize: nat, ghost oldTotal: nat) returns (sound: bool)
    requires h.Valid() && Allocated(h, from, oldTotal) && to != from
    requires Allocated(h, to, Total(newSize, h.word, h.Words()))
    modifies h`free, h`freemem, h`live, h`clock, h.mem
    ensures h.Valid() && Allocated(h, to, Total(newSize, h.word, h.Words()))
    ensures sound <==> !MoveOverruns(h, oldTotal, newSize)
    ensures h.live == if sound then old(h.live) - {from - h.word} else old(h.live)
    ensures !sound ==> Allocated(h, from, oldTotal)
    ensures !sound ==> Data(h, from, Room(h, oldTotal)) == old(Data(h, from, Room(h, oldTotal)))
    ensures sound ==>
              var n := Copied(oldTotal, newSize, h.word, h.Words());
              Data(h, to, n) == old(Data(h, from, n))
    ensures SameOn(old(h.mem[..]), h.mem[..], LiveBytes(old(h.live) - {from - h.word} - {to - h.word}))
  {
    hide Pool.Valid, LiveBytes, RoundUp, Word, SameOn, Pool.Words, Total, Copied;
    SameMemory(h.mem[..], LiveBytes(h.live - {from - h.word} - {to - h.word}));
    var total := LoadWord(h, from - h.word);
    sound := !MoveOverruns(h, total, newSize);
    if sound {
      MoveTo(h, from, to, Copied(total, newSize, h.word, h.Words()), oldTotal, Total(newSize, h.word, h.Words()));
    }
  }

  lemma {:induction false} LessData(h: Pool, a: nat, room: nat, n: nat)
    requires n <= room && a + room <= h.mem.Length
    ensures Data(h, a, n) == Data(h, a, room)[..n]
  {
  }

  /** Copy data between two allocations. */
  method CopyData(h: Pool, from: nat, to: nat, ghost fromTotal: nat, ghost toTotal: nat, n: nat)
    requires h.Valid() && Allocated(h, from, fromTotal) && Allocated(h, to, toTotal) && to != from
    requires n <= Room(h, fromTotal) && n <= Room(h, toTotal)
    modifies h.mem
    ensures h.mem[to..to + n] == old(h.mem[from..from + n])
    ensures Allocated(h, from, fromTotal) && Allocated(h, to, toTotal)
    ensures SameOn(old(h.mem[..]), h.mem[..], LiveBytes(h.live - {from - h.word} - {to - h.word}))
  {
    hide Range, LiveBytes, RoundUp, Partition, WellFormed, Bytes, IsPow2, Word, SameOn, Pool.Words;
    var a, b := from - h.word, to - h.word;
    ghost var ra, rb := RoundUp(fromTotal, h.min), RoundUp(toTotal, h.min);
    DisjointRanges(a, ra, b, rb);
    ghost var mem0 := h.mem[..];
    CopyBytes(h, to, from, n);
    assert h.mem[a..from] == mem0[a..from];
    assert h.mem[b..to] == mem0[b..to];
    OthersDisjoint(h.live, a, b);
    WriteInside(mem0, h.mem[..], b, to, n, rb, LiveBytes(h.live - {a} - {b}));
  }

  lemma {:induction false} DisjointRanges(a: nat, n: nat, b: nat, m: nat)
    requires Range(a, n) !! Range(b, m) && n > 0 && m > 0
    ensures a + n <= b || b + m <= a
  {
    hide Range;
    assert a in Range(a, n) && b in Range(b, m);
  }

  lemma {:induction false} OthersDisjoint(live: map<nat, nat>, a: nat, b: nat)
    requires Separate(live) && a in live && b in live
    ensures Range(b, live[b]) !! LiveBytes(live - {a} - {b})
  {
    hide Range;
    var rest := live - {a} - {b};
    forall x | x in LiveBytes(rest) ensures x !in Range(b, live[b]) {
      var c :| c in rest && x in Range(c, rest[c]);
      assert Range(c, live[c]) !! Range(b, live[b]);
    }
  }

  lemma {:induction false} WriteInside(m: seq<byte>, m': seq<byte>, p: nat, to: nat, n: nat, size: nat,
                                       others: set<int>)
    requires |m| == |m'| && p <= to && to + n <= p + size && Range(p, size) !! others
    requires forall y :: 0 <= y < |m| && !(to <= y < to + n) ==> m'[y] == m[y]
    ensures SameOn(m, m', others)
  {
    hide Range;
    forall x | x in others && 0 <= x < |m| ensures m[x] == m'[x] {
      assert x !in Range(p, size);
    }
  }

  lemma {:induction false} Submap(live: map<nat, nat>, rest: map<nat, nat>)
    requires forall a :: a in rest ==> a in live && live[a] == rest[a]
    ensures LiveBytes(rest) <= LiveBytes(live)
  {
    hide Range;
    forall x | x in LiveBytes(rest) ensures x in LiveBytes(live) {
      var a :| a in rest && x in Range(a, rest[a]);
      assert a in live && x in Range(a, live[a]);
    }
  }

  /** A live block keeps its contents where memory agrees on the live bytes. */
  lemma {:induction false} KeptInside(h: Pool, m: seq<byte>, p: nat, n: nat)
    requires h.Valid() && p in h.live && n <= h.live[p] && SameOn(m, h.mem[..], LiveBytes(h.live))
    ensures p + n <= h.mem.Length && |m| == h.mem.Length && m[p..p + n] == h.mem[p..p + n]
  {
    hide Range, LiveBytes, Partition, Separate, WellFormed, Bytes, IsPow2;
    LiveInMemory(h, p);
    forall x | p <= x < p + n ensures m[x] == h.mem[x] {
      assert x in Range(p, h.live[p]);
      assert h.mem[..][x] == h.mem[x];
    }
  }

  lemma {:induction false} SlicesKept(m: seq<byte>, m': seq<byte>, a: nat, b: nat, c: nat)
    requires a <= b <= c <= |m| == |m'| && m[a..c] == m'[a..c]
    ensures m[a..b] == m'[a..b] && m[b..c] == m'[b..c]
  {
    assert m[a..b] == m[a..c][..b - a] && m'[a..b] == m'[a..c][..b - a];
    assert m[b..c] == m[a..c][b - a..] && m'[b..c] == m'[a..c][b - a..];
  }

  // ----- The interface

  /** A pointer that a caller may pass, with the total size of the block behind it. */
  ghost predicate Owned(h: Pool, p: Pointer, total: nat)
    reads h, h.mem
  {
    p.At? ==> Allocated(h, p.addr, total)
  }

  /** The block behind a pointer, if there is one. */
  ghost function BlockOf(h: Pool, p: Pointer): set<nat>
    requires p.At? ==> h.word <= p.addr
  {
    if p.At? then {p.addr - h.word} else {}
  }

  /** Reallocate: the new allocation starts with as much of the old data as is wanted, the old block is
      freed, and no byte of any other live block changes.  On failure the old block is untouched.
      Blocks that caches hold may be given back meanwhile.  If the allocation goes astray, or copying
      would leave one of the two blocks, the model stops before that and tells so; this does not happen
      for sane sizes. */
  method Realloc(h: Pool, old_: Pointer, newSize: nat, ghost oldTotal: nat)
    returns (new_: Pointer, sound: bool, ghost discards: nat)
    requires h.Valid() && Owned(h, old_, oldTotal) && newSize < h.Words()
    modifies h`free, h`freemem, h`live, h`leaked, h`cached, h`clock, h.mem
    ensures h.Valid() && h.pool == old(h.pool)
    ensures discards <= |old(h.cached)| && h.cached == old(h.cached)[discards..]
    // astray, or about to leave a block
    ensures !sound ==> new_ != Nowhere
    ensures !sound && new_ == Null ==> LosesWay(h, Total(newSize, h.word, h.Words()))
    ensures new_.At? ==> (sound <==> !(old_.At? && MoveOverruns(h, oldTotal, newSize)))
    ensures SaneSize(h, newSize) && (old_.At? ==> oldTotal >= h.word) ==> sound
    ensures 2 * RoundUp(newSize + h.word, h.min) <= Pow2(8 * h.word) && (old_.At? ==> oldTotal >= h.word) ==> sound
    // no memory
    ensures new_ == Null ==> newSize > 0 && h.live == h.Kept(old(h.live), old(h.cached), discards)
    ensures new_ == Null && sound ==>
              h.cached == [] && h.NoneFits(h.free, |h.free|, RoundUp(Total(newSize, h.word, h.Words()), h.min), 1, 0)
    ensures (new_ == Null || !sound) && old_.At? ==>
              Allocated(h, old_.addr, oldTotal)
              && Data(h, old_.addr, Room(h, oldTotal)) == old(Data(h, old_.addr, Room(h, oldTotal)))
    // nothing wanted
    ensures new_ == Nowhere <==> newSize == 0
    ensures new_ == Nowhere ==> discards == 0 && h.live == old(h.live) - BlockOf(h, old_)
    // a new allocation, which has room for what was asked for exactly if adding the header does not wrap
    ensures new_.At? ==> Allocated(h, new_.addr, Total(newSize, h.word, h.Words()))
    ensures new_.At? ==> (newSize <= Room(h, Total(newSize, h.word, h.Words())) <==> newSize + h.word < h.Words())
    ensures new_.At? ==>
              var kept, total := h.Kept(old(h.live), old(h.cached), discards), Total(newSize, h.word, h.Words());
              && new_.addr - h.word !in kept
              && h.live == kept[new_.addr - h.word := RoundUp(total, h.min)] - (if sound then BlockOf(h, old_) else {})
    ensures new_.At? && sound && old_.At? ==>
              var n := Copied(oldTotal, newSize, h.word, h.Words());
              Data(h, new_.addr, n) == old(Data(h, old_.addr, n))
    ensures old_.At? && oldTotal >= h.word ==>
              Copied(oldTotal, newSize, h.word, h.Words()) == Min(oldTotal - h.word, newSize)
    // everybody else
    ensures SameOn(old(h.mem[..]), h.mem[..],
                   LiveBytes(h.Kept(old(h.live), old(h.cached), discards) - BlockOf(h, old_)))
  {
    hide Range, LiveBytes, RoundUp, Partition, Separate, WellFormed, Bytes, IsPow2, Word, SameOn, Addresses, Pow2,
         Pool.Words, Total, Copied, Overruns, Pool.Sane, Pool.NoneFits, Pool.Astray, Pool.Rounded;
    SameMemory(h.mem[..], LiveBytes(h.live));
    NoneDiscarded(h.live, h.cached);
    HalfIsSaneSize(h, newSize);
    discards, sound := 0, true;
    new_ := Nowhere;
    if old_.At? {
      OldTotal(h, old_.addr, newSize, oldTotal);
    }
    if newSize > 0 {
      var block;
      if old_.At? {
        block, sound, discards := ReallocMove(h, old_.addr, newSize, oldTotal);
      } else {
        block, sound, discards := AllocSized(h, newSize);
      }
      new_ := if block == 0 then Null else At(block + h.word);
      if block != 0 {
        RoomExactly(h, newSize);
      }
    } else if old_.At? {
      FreeSized(h, old_.addr, oldTotal);
    }
    RemoveNone(h.live);
    RemoveNone(h.Kept(old(h.live), old(h.cached), discards));
  }

  lemma {:induction false} RemoveNone(live: map<nat, nat>)
    ensures live - {} == live
  {
  }

  /** What is copied from an ordinary allocation. */
  lemma {:induction false} OldTotal(h: Pool, a: nat, newSize: nat, total: nat)
    requires h.Valid() && Allocated(h, a, total)
    ensures 2 * total < h.Words()
    ensures total >= h.word ==> Copied(total, newSize, h.word, h.Words()) == Min(total - h.word, newSize)
  {
    hide Range, LiveBytes, RoundUp, Partition, Separate, WellFormed, Bytes, IsPow2, Word, Pool.Words, Copied;
    LiveInMemory(h, a - h.word);
    if total >= h.word {
      CopiedIs(total, newSize, h.word, h.Words());
    }
  }

  /** A block that has been allocated has room for what was asked for exactly if adding the header did not
      wrap. */
  lemma {:induction false} RoomExactly(h: Pool, size: nat)
    requires h.Valid() && 0 < size < h.Words() && Total(size, h.word, h.Words()) > 0
    ensures size <= Room(h, Total(size, h.word, h.Words())) <==> size + h.word < h.Words()
  {
    hide Range, LiveBytes, RoundUp, Partition, Separate, WellFormed, Bytes, IsPow2, Word, Pool.Words, Total;
    h.UnitBelowHalf();
    TotalIs(size, h.word, h.Words());
    if size + h.word >= h.Words() {
      OneUnit(Total(size, h.word, h.Words()), h.min);
    }
  }

  /** Moving an ordinary allocation leaves no block if adding the header does not wrap. */
  lemma {:induction false} SaneMove(h: Pool, a: nat, newSize: nat, total: nat)
    requires h.Valid() && Allocated(h, a, total) && total >= h.word
    requires 0 < newSize && newSize + h.word < h.Words()
    ensures !MoveOverruns(h, total, newSize)
  {
    hide Range, LiveBytes, RoundUp, Partition, Separate, WellFormed, Bytes, IsPow2, Word, Pool.Words, Total, Overruns;
    h.UnitBelowHalf();
    OldTotal(h, a, newSize, total);
    TotalIs(newSize, h.word, h.Words());
    OverrunExactly(total, newSize, h.word, h.min, h.Words());
  }

  /** Allocate a new block; the old one stays as it is. */
  method AllocBeside(h: Pool, from: nat, newSize: nat, ghost oldTotal: nat)
    returns (block: nat, sound: bool, ghost discards: nat)
    requires h.Valid() && Allocated(h, from, oldTotal) && 0 < newSize < h.Words()
    modifies h`free, h`freemem, h`live, h`leaked, h`cached, h`clock, h.mem
    ensures h.Valid() && h.pool == old(h.pool)
    ensures discards <= |old(h.cached)| && h.cached == old(h.cached)[discards..]
    ensures !sound ==> block == 0 && LosesWay(h, Total(newSize, h.word, h.Words()))
    ensures SaneSize(h, newSize) ==> sound
    ensures sound && block == 0 ==>
              h.cached == [] && h.NoneFits(h.free, |h.free|, RoundUp(Total(newSize, h.word, h.Words()), h.min), 1, 0)
    ensures block == 0 ==> h.live == h.Kept(old(h.live), old(h.cached), discards)
    ensures block != 0 ==>
              var total, kept := Total(newSize, h.word, h.Words()), h.Kept(old(h.live), old(h.cached), discards);
              && block !in kept && block != from - h.word
              && Allocated(h, block + h.word, total) && h.live == kept[block := RoundUp(total, h.min)]
    ensures Allocated(h, from, oldTotal)
    ensures Data(h, from, Room(h, oldTotal)) == old(Data(h, from, Room(h, oldTotal)))
    ensures SameOn(old(h.mem[..]), h.mem[..],
                   LiveBytes(h.Kept(old(h.live), old(h.cached), discards) - {from - h.word}))
  {
    hide Pool.Valid, Range, LiveBytes, RoundUp, Partition, Separate, WellFormed, Bytes, IsPow2, Word, SameOn,
         Addresses, Pow2, Pool.Words, Total, Pool.Sane, Pool.NoneFits, Pool.Astray, Pool.Rounded, LosesWay, SaneSize;
    ghost var mem0, oldBlock, room := h.mem[..], from - h.word, Room(h, oldTotal);
    block, sound, discards := AllocSized(h, newSize);
    ghost var kept := h.Kept(old(h.live), old(h.cached), discards);
    OwnerKept(old(h.live), old(h.cached), discards, oldBlock);
    assert mem0[oldBlock..from] == old(h.mem[oldBlock..from]);
    StillAllocated(h, mem0, kept, from, oldTotal, room);
    assert old(Data(h, from, room)) == mem0[from..from + room];
    Submap(kept, kept - {oldBlock});
    SameOnFewer(mem0, h.mem[..], LiveBytes(kept), LiveBytes(kept - {oldBlock}));
  }

  /** Allocate a new block, move the old data to it and free the old block. */
  method ReallocMove(h: Pool, from: nat, newSize: nat, ghost oldTotal: nat)
    returns (block: nat, sound: bool, ghost discards: nat)
    requires h.Valid() && Allocated(h, from, oldTotal) && 0 < newSize < h.Words()
    modifies h`free, h`freemem, h`live, h`leaked, h`cached, h`clock, h.mem
    ensures h.Valid() && h.pool == old(h.pool)
    ensures discards <= |old(h.cached)| && h.cached == old(h.cached)[discards..]
    ensures !sound && block == 0 ==> LosesWay(h, Total(newSize, h.word, h.Words()))
    ensures block != 0 ==> (sound <==> !MoveOverruns(h, oldTotal, newSize))
    ensures SaneSize(h, newSize) && oldTotal >= h.word ==> sound
    ensures sound && block == 0 ==>
              h.cached == [] && h.NoneFits(h.free, |h.free|, RoundUp(Total(newSize, h.word, h.Words()), h.min), 1, 0)
    ensures block == 0 ==> h.live == h.Kept(old(h.live), old(h.cached), discards)
    ensures block == 0 || !sound ==>
              Allocated(h, from, oldTotal)
              && Data(h, from, Room(h, oldTotal)) == old(Data(h, from, Room(h, oldTotal)))
    ensures block != 0 ==>
              block !in h.Kept(old(h.live), old(h.cached), discards)
              && Allocated(h, block + h.word, Total(newSize, h.word, h.Words()))
    ensures block != 0 ==>
              var kept, total := h.Kept(old(h.live), old(h.cached), discards), Total(newSize, h.word, h.Words());
              h.live == kept[block := RoundUp(total, h.min)] - (if sound then {from - h.word} else {})
    ensures block != 0 && sound ==>
              var n := Copied(oldTotal, newSize, h.word, h.Words());
              Data(h, block + h.word, n) == old(Data(h, from, n))
    ensures SameOn(old(h.mem[..]), h.mem[..],
                   LiveBytes(h.Kept(old(h.live), old(h.cached), discards) - {from - h.word}))
  {
    hide Pool.Valid, Range, LiveBytes, RoundUp, Partition, Separate, WellFormed, Bytes, IsPow2, Word, SameOn,
         Addresses, Pow2, Pool.Words, Total, Copied, Pool.Sane, Pool.NoneFits, Pool.Astray, Pool.Rounded, LosesWay,
         Data;
    ghost var mem0, oldBlock, room := h.mem[..], from - h.word, Room(h, oldTotal);
    ghost var n := Min(Copied(oldTotal, newSize, h.word, h.Words()), room);
    LessData(h, from, room, n);
    if oldTotal >= h.word && newSize + h.word < h.Words() {
      SaneMove(h, from, newSize, oldTotal);
    }
    block, sound, discards := AllocBeside(h, from, newSize, oldTotal);
    LessData(h, from, room, n);
    if block != 0 {
      ghost var kept, mem1 := h.Kept(old(h.live), old(h.cached), discards), h.mem[..];
      RestOf(kept, block, RoundUp(Total(newSize, h.word, h.Words()), h.min), oldBlock);
      assert h.live - {from - h.word} - {block + h.word - h.word} == kept - {oldBlock};
      RemoveNone(h.live);
      sound := MoveInside(h, from, block + h.word, newSize, oldTotal);
      SameOnTransitive(mem0, mem1, h.mem[..], LiveBytes(kept - {oldBlock}), LiveBytes(kept - {oldBlock}));
    }
  }

  lemma {:induction false} RestOf(live: map<nat, nat>, block: nat, size: nat, other: nat)
    requires block !in live
    ensures live[block := size] - {other} - {block} == live - {other}
  {
  }

  /** A block that no cache holds is not discarded. */
  lemma {:induction false} OwnerKept(live: map<nat, nat>, cached: seq<Cached>, n: nat, p: nat)
    requires n <= |cached| && p in live && forall i :: 0 <= i < |cached| ==> cached[i].addr != p
    ensures p in live - Addresses(cached[..n]) && forall i :: 0 <= i < |cached[n..]| ==> cached[n..][i].addr != p
  {
  }

  /** An allocation is not affected by a change that keeps its block and its bytes. */
  lemma {:induction false} StillAllocated(h: Pool, m: seq<byte>, kept: map<nat, nat>, a: nat, total: nat, n: nat)
    requires h.Valid() && total > 0 && h.word <= a && (a - h.word) in kept && kept[a - h.word] == RoundUp(total, h.min)
    requires (a - h.word) in h.live && h.live[a - h.word] == kept[a - h.word] && n <= Room(h, total)
    requires forall i :: 0 <= i < |h.cached| ==> h.cached[i].addr != a - h.word
    requires SameOn(m, h.mem[..], LiveBytes(kept)) && a + n <= |m| && Word(m[a - h.word..a]) == total
    ensures Allocated(h, a, total) && Data(h, a, n) == m[a..a + n]
  {
    hide Range, LiveBytes, Partition, Separate, WellFormed, Bytes, IsPow2, Word, SameOn, RoundUp, Pool.Words;
    var p := a - h.word;
    LiveInMemory(h, p);
    KeptSlice(m, h.mem[..], kept, p, h.word + n);
    SlicesKept(m, h.mem[..], p, a, a + n);
    assert h.mem[..][p..a] == h.mem[p..a];
    assert h.mem[..][a..a + n] == h.mem[a..a + n];
  }

  lemma {:induction false} KeptSlice(m: seq<byte>, m': seq<byte>, live: map<nat, nat>, p: nat, n: nat)
    requires p in live && n <= live[p] && SameOn(m, m', LiveBytes(live)) && p + n <= |m|
    ensures |m| == |m'| && m[p..p + n] == m'[p..p + n]
  {
    hide Range;
    forall x | p <= x < p + n ensures m[x] == m'[x] {
      assert p in live && x in Range(p, live[p]);
      assert x in LiveBytes(live);
    }
  }

  /** Allocate memory: reallocate nothing.  The only change to the live blocks, apart from cached
      ones that are given back, is the new block, and no byte of another block changes. */
  method Malloc(h: Pool, size: nat) returns (p: Pointer, sound: bool, ghost discards: nat)
    requires h.Valid() && size < h.Words()
    modifies h`free, h`freemem, h`live, h`leaked, h`cached, h`clock, h.mem
    ensures h.Valid() && h.pool == old(h.pool) && (p == Nowhere <==> size == 0)
    ensures discards <= |old(h.cached)| && h.cached == old(h.cached)[discards..]
    ensures !sound ==> p == Null && LosesWay(h, Total(size, h.word, h.Words()))
    ensures SaneSize(h, size) ==> sound
    ensures p == Null ==> h.live == h.Kept(old(h.live), old(h.cached), discards)
    ensures p == Null && sound ==>
              h.cached == [] && h.NoneFits(h.free, |h.free|, RoundUp(Total(size, h.word, h.Words()), h.min), 1, 0)
    ensures p == Nowhere ==> discards == 0 && h.live == old(h.live)
    ensures p.At? ==> Allocated(h, p.addr, Total(size, h.word, h.Words()))
    ensures p.At? ==> (size <= Room(h, Total(size, h.word, h.Words())) <==> size + h.word < h.Words())
    ensures p.At? ==>
              var kept, total := h.Kept(old(h.live), old(h.cached), discards), Total(size, h.word, h.Words());
              p.addr - h.word !in kept && h.live == kept[p.addr - h.word := RoundUp(total, h.min)]
    ensures SameOn(old(h.mem[..]), h.mem[..], LiveBytes(h.Kept(old(h.live), old(h.cached), discards)))
  {
    hide Range, LiveBytes, RoundUp, Partition, Separate, WellFormed, Bytes, IsPow2, Word, SameOn, Pow2, Addresses,
         Pool.Words, Total, Pool.Sane, Pool.NoneFits, Pool.Astray, Pool.Rounded, LosesWay;
    p, sound, discards := Realloc(h, Null, size, 0);
    RemoveNone(old(h.live));
    RemoveNone(h.live);
    RemoveNone(h.Kept(old(h.live), old(h.cached), discards));
    if p.At? {
      ghost var total := Total(size, h.word, h.Words());
      RemoveNone(h.Kept(old(h.live), old(h.cached), discards)[p.addr - h.word := RoundUp(total, h.min)]);
    }
  }

  /** Free memory: reallocate it to nothing. */
  method Free(h: Pool, p: Pointer, ghost total: nat)
    requires h.Valid() && Owned(h, p, total)
    modifies h`free, h`freemem, h`live, h`leaked, h`cached, h`clock, h.mem
    ensures h.Valid() && h.cached == old(h.cached) && h.live == old(h.live) - BlockOf(h, p)
    ensures SameOn(old(h.mem[..]), h.mem[..], LiveBytes(h.live))
  {
    hide Range, LiveBytes, RoundUp, Partition, Separate, WellFormed, Bytes, IsPow2, Word, SameOn, Addresses, Pool.Words;
    NoneDiscarded(h.live, h.cached);
    var q, sound, discards := Realloc(h, p, 0, total);
  }
}
