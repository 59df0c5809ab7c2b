/** The memory allocator: a first-fit search over an address-ordered list of free blocks whose
    headers live in the free memory itself.
  */
module Heap {
  import opened Bits
  import opened FreeList

  // ----- Arithmetic of sizes and alignments

  ghost predicate IsPow2(n: nat) {
    exists k: nat :: n == Pow2(k)
  }

  /** `align - 1 | min - 1` for powers of two is one less than the larger. */
  lemma {:induction false} OrMasks(i: nat, j: nat)
    ensures Or(Pow2(i) - 1, Pow2(j) - 1) == Pow2(if i < j then j else i) - 1
  {
    if i > 0 && j > 0 {
      OrMasks(i - 1, j - 1);
      var a, b := Pow2(i) - 1, Pow2(j) - 1;
      assert a / 2 == Pow2(i - 1) - 1 && b / 2 == Pow2(j - 1) - 1;
      assert a % 2 == 1 && b % 2 == 1;
    }
  }

  function Max(a: nat, b: nat): nat {
    if a < b then b else a
  }

  lemma {:induction false} AlignmentIsLarger(align: nat, min: nat)
    requires IsPow2(align) && IsPow2(min)
    ensures align >= 1 && min >= 1 && Or(align - 1, min - 1) + 1 == Max(align, min)
    ensures Max(align, min) % min == 0
  {
    var i: nat :| align == Pow2(i);
    var j: nat :| min == Pow2(j);
    OrMasks(i, j);
    if i < j {
      Pow2Monotone(i, j);
      DivModUnique(min, 1, min, 0);
    } else {
      Pow2Monotone(j, i);
      Pow2Add(j, i - j);
      MulCommutes(Pow2(j), Pow2(i - j));
      DivModUnique(align, Pow2(i - j), min, 0);
    }
  }

  /** Round up to a multiple of `min`. */
  function RoundUp(size: nat, min: nat): (r: nat)
    requires min > 0
    ensures r % min == 0 && size <= r < size + min
  {
    RoundUpIs(size, min);
    (size + min - 1) / min * min
  }

  lemma {:induction false} RoundUpIs(size: nat, min: nat)
    requires min > 0
    ensures var r := (size + min - 1) / min * min;
            r % min == 0 && size <= r < size + min
  {
    var x := size + min - 1;
    var q := x / min;
    assert x == q * min + x % min;
    DivModUnique(q * min, q, min, 0);
  }

  // ----- Live blocks

  ghost function LiveBytes(live: map<nat, nat>): set<int> {
    set a, x | a in live && x in Range(a, live[a]) :: x
  }

  /** Live blocks do not overlap. */
  ghost predicate Separate(live: map<nat, nat>) {
    forall a, b :: a in live && b in live && a != b ==> Range(a, live[a]) !! Range(b, live[b])
  }

  lemma {:induction false} LiveAdd(live: map<nat, nat>, p: nat, n: nat)
    requires Separate(live) && p !in live && Range(p, n) !! LiveBytes(live)
    ensures LiveBytes(live[p := n]) == LiveBytes(live) + Range(p, n) && Separate(live[p := n])
  {
    hide Range;
    var live' := live[p := n];
    forall x | x in LiveBytes(live) + Range(p, n) ensures x in LiveBytes(live') {
      if x in LiveBytes(live) {
        var a :| a in live && x in Range(a, live[a]);
        assert a in live' && x in Range(a, live'[a]);
      } else {
        assert p in live' && x in Range(p, live'[p]);
      }
    }
    forall a | a in live ensures Range(a, live[a]) <= LiveBytes(live) {
    }
  }

  lemma {:induction false} LiveRemove(live: map<nat, nat>, p: nat)
    requires Separate(live) && p in live
    ensures LiveBytes(live - {p}) == LiveBytes(live) - Range(p, live[p]) && Separate(live - {p})
    ensures Range(p, live[p]) <= LiveBytes(live)
  {
    hide Range;
    var live' := live - {p};
    forall x | x in LiveBytes(live) - Range(p, live[p]) ensures x in LiveBytes(live') {
      var a :| a in live && x in Range(a, live[a]);
      assert a in live' && x in Range(a, live'[a]);
    }
  }

  // ----- Splitting a block

  /** What remains in the free list of a block from which `size` bytes are taken after `pre`. */
  function Remains(b: Block, pre: nat, size: nat, min: nat): seq<Block>
    requires pre + size <= b.size
  {
    (if pre >= min then [Block(b.addr, pre)] else [])
    + (if b.size - pre - size >= min then [Block(b.addr + pre + size, b.size - pre - size)] else [])
  }

  /** What is lost because it is too small for a block. */
  ghost function Lost(b: Block, pre: nat, size: nat, min: nat): set<int>
    requires pre + size <= b.size
  {
    (if pre >= min then {} else Range(b.addr, pre))
    + (if b.size - pre - size >= min then {} else Range(b.addr + pre + size, b.size - pre - size))
  }

  /** A block is divided into what remains, what is taken and what is lost. */
  lemma {:induction false} SplitPartition(b: Block, pre: nat, size: nat, min: nat)
    requires pre + size <= b.size
    ensures Range(b.addr, b.size) == Bytes(Remains(b, pre, size, min)) + Range(b.addr + pre, size) + Lost(b, pre, size,
            min)
    ensures Bytes(Remains(b, pre, size, min)) !! Range(b.addr + pre, size)
    ensures Bytes(Remains(b, pre, size, min)) !! Lost(b, pre, size, min)
    ensures Range(b.addr + pre, size) !! Lost(b, pre, size, min)
  {
    hide Range;
    var post := b.size - pre - size;
    var x := if pre >= min then [Block(b.addr, pre)] else [];
    var y := if post >= min then [Block(b.addr + pre + size, post)] else [];
    BytesAppend(x, y);
    BytesOne(Block(b.addr, pre));
    BytesOne(Block(b.addr + pre + size, post));
  }

  /** Replacing a block by what remains of it keeps the list well formed and takes away exactly
      the bytes taken and lost. */
  lemma {:induction false} SplitList(list: seq<Block>, i: nat, pre: nat, size: nat, min: nat)
    requires i < |list| && WellFormed(list, min) && min > 0 && size > 0 && pre + size <= list[i].size
    ensures var list' := list[..i] + Remains(list[i], pre, size, min) + list[i + 1..];
            && WellFormed(list', min)
            && Bytes(list') == Bytes(list) - Range(list[i].addr + pre, size) - Lost(list[i], pre, size, min)
  {
    hide Range, Lost;
    var b, r := list[i], Remains(list[i], pre, size, min);
    var list' := list[..i] + r + list[i + 1..];
    BytesAppend(list[..i] + r, list[i + 1..]);
    BytesAppend(list[..i], r);
    BytesAt(list, i);
    BytesBelow(list[..i], b.addr);
    BytesAbove(list[i + 1..], b.End());
    SplitPartition(b, pre, size, min);
    SplitOrdered(list, i, pre, size, min);
  }

  lemma {:induction false} SplitOrdered(list: seq<Block>, i: nat, pre: nat, size: nat, min: nat)
    requires i < |list| && WellFormed(list, min) && min > 0 && size > 0 && pre + size <= list[i].size
    ensures WellFormed(list[..i] + Remains(list[i], pre, size, min) + list[i + 1..], min)
  {
    hide Remains, WellFormed;
    var b, r := list[i], Remains(list[i], pre, size, min);
    RemainsInside(b, pre, size, min);
    Parts(list, i, min);
    Join(list[..i], r, min, b.addr);
    assert forall k :: 0 <= k < |list[..i] + r| ==> (list[..i] + r)[k].End() < b.End() + 1;
    Join(list[..i] + r, list[i + 1..], min, b.End() + 1);
  }

  lemma {:induction false} RemainsInside(b: Block, pre: nat, size: nat, min: nat)
    requires min > 0 && size > 0 && pre + size <= b.size
    ensures var r := Remains(b, pre, size, min);
            WellFormed(r, min) && forall k :: 0 <= k < |r| ==> b.addr <= r[k].addr && r[k].End() <= b.End()
  {
  }

  lemma {:induction false} Parts(list: seq<Block>, i: nat, min: nat)
    requires i < |list| && WellFormed(list, min)
    ensures WellFormed(list[..i], min) && WellFormed(list[i + 1..], min)
    ensures forall k :: 0 <= k < i ==> list[k].End() < list[i].addr
    ensures forall k :: i < k < |list| ==> list[i].End() + 1 <= list[k].addr
  {
  }

  /** Two lists with a gap between them make one list. */
  lemma {:induction false} Join(a: seq<Block>, b: seq<Block>, min: nat, bound: nat)
    requires WellFormed(a, min) && WellFormed(b, min)
    requires forall k :: 0 <= k < |a| ==> a[k].End() < bound
    requires forall k :: 0 <= k < |b| ==> b[k].addr >= bound
    ensures WellFormed(a + b, min)
  {
  }

  // ----- Physical alignment

  /** The smallest unit of memory, by physical address, that an address lies in. */
  function Unit(x: int, min: nat, displacement: int): int
    requires min > 0
  {
    (x + displacement) / min
  }

  /** A set of bytes that consists of whole units. */
  ghost predicate Whole(s: set<int>, min: nat, displacement: int)
    requires min > 0
  {
    forall x, y :: x in s && Unit(x, min, displacement) == Unit(y, min, displacement) ==> y in s
  }

  lemma {:induction false} UnitBounds(x: int, q: int, min: nat)
    requires min > 0
    ensures x / min >= q <==> x >= q * min
  {
    assert x == x / min * min + x % min;
    var k := x / min - q;
    assert x - q * min == min * k + x % min;
    MultipleSize(min, k);
  }

  lemma {:induction false} RangeWhole(a: int, n: nat, min: nat, displacement: int)
    requires min > 0 && (a + displacement) % min == 0 && n % min == 0
    ensures Whole(Range(a, n), min, displacement)
  {
    hide Range;
    var p, q := (a + displacement) / min, n / min;
    assert a + displacement == p * min && n == q * min;
    assert (p + q) * min == p * min + q * min;
    forall x, y | x in Range(a, n) && Unit(x, min, displacement)
      == Unit(y, min, displacement) ensures y in Range(a, n) {
      UnitBounds(x + displacement, p, min);
      UnitBounds(y + displacement, p, min);
      UnitBounds(x + displacement, p + q, min);
      UnitBounds(y + displacement, p + q, min);
    }
  }

  /** All of the unit in which an address lies is in the pool.  Other units of the pool lie across the
      start or the end of memory that was added to it. */
  ghost predicate Inside(pool: set<int>, x: int, min: nat, displacement: int)
    requires min > 0
  {
    forall z :: Unit(z, min, displacement) == Unit(x, min, displacement) ==> z in pool
  }

  /** A set of bytes that consists of whole units as far as the pool does. */
  ghost predicate WholeIn(s: set<int>, pool: set<int>, min: nat, displacement: int)
    requires min > 0
  {
    forall x, y ::
      x in s && Unit(x, min, displacement) == Unit(y, min, displacement) && Inside(pool, x, min, displacement) ==>
        y in s
  }

  /** Bytes in units that lie across the start or end of memory. */
  ghost predicate AtEdges(s: set<int>, pool: set<int>, min: nat, displacement: int)
    requires min > 0
  {
    forall x :: x in s ==> !Inside(pool, x, min, displacement)
  }

  /** No unit has bytes of both sets. */
  ghost predicate UnitsApart(a: set<int>, b: set<int>, min: nat, displacement: int)
    requires min > 0
  {
    forall x, y :: x in a && y in b ==> Unit(x, min, displacement) != Unit(y, min, displacement)
  }

  lemma {:induction false} InsideSame(pool: set<int>, x: int, y: int, min: nat, displacement: int)
    requires min > 0 && Unit(x, min, displacement) == Unit(y, min, displacement)
    ensures Inside(pool, x, min, displacement) <==> Inside(pool, y, min, displacement)
  {
    hide Unit;
  }

  /** A pool of whole units has no edges. */
  lemma {:induction false} NoEdges(s: set<int>, pool: set<int>, min: nat, displacement: int)
    requires min > 0 && Whole(pool, min, displacement) && s <= pool && AtEdges(s, pool, min, displacement)
    ensures s == {}
  {
    hide Unit;
    forall x | x in pool ensures x !in s {
      assert Inside(pool, x, min, displacement);
    }
  }

  lemma {:induction false} WholeInUnion(a: set<int>, b: set<int>, pool: set<int>, min: nat, displacement: int)
    requires min > 0 && WholeIn(a, pool, min, displacement) && Whole(b, min, displacement)
    ensures WholeIn(a + b, pool, min, displacement)
  {
    hide Unit, Inside;
  }

  lemma {:induction false} WholeInDifference(a: set<int>, b: set<int>, lost: set<int>, pool: set<int>, min: nat,
                                             displacement: int)
    requires min > 0 && WholeIn(a, pool, min, displacement) && Whole(b, min, displacement)
             && AtEdges(lost, pool, min, displacement)
    ensures WholeIn(a - b - lost, pool, min, displacement)
  {
    hide Unit, Inside;
    forall x, y | x in a - b - lost && Unit(x, min, displacement) == Unit(y, min, displacement)
      && Inside(pool, x, min, displacement)
      ensures y in a - b - lost
    {
      InsideSame(pool, x, y, min, displacement);
    }
  }

  /** Adding memory that shares no unit with the pool. */
  lemma {:induction false} WholeInPopulate(s: set<int>, pool: set<int>, r: set<int>, min: nat, displacement: int)
    requires min > 0 && s <= pool && WholeIn(s, pool, min, displacement) && UnitsApart(pool, r, min, displacement)
    ensures WholeIn(s + r, pool + r, min, displacement)
  {
    hide Unit;
    forall x, y | x in s + r && Unit(x, min, displacement) == Unit(y, min, displacement)
      && Inside(pool + r, x, min, displacement)
      ensures y in s + r
    {
      assert y in pool + r;
      if x in s {
        assert Inside(pool, x, min, displacement);
      }
    }
  }

  lemma {:induction false} EdgesStay(s: set<int>, pool: set<int>, r: set<int>, min: nat, displacement: int)
    requires min > 0 && s <= pool && AtEdges(s, pool, min, displacement) && UnitsApart(pool, r, min, displacement)
    ensures AtEdges(s, pool + r, min, displacement)
  {
    hide Unit;
    forall x | x in s ensures !Inside(pool + r, x, min, displacement) {
      var z :| Unit(z, min, displacement) == Unit(x, min, displacement) && z !in pool;
      assert z !in r;
    }
  }

  /** Memory of whole units that is not in the pool shares no unit with it. */
  lemma {:induction false} WholeApart(pool: set<int>, r: set<int>, min: nat, displacement: int)
    requires min > 0 && Whole(r, min, displacement) && pool !! r
    ensures UnitsApart(pool, r, min, displacement)
  {
    hide Unit;
  }

  /** What is lost next to a piece of whole units lies at the edge of the pool. */
  lemma {:induction false} LostAtEdges(list: seq<Block>, i: nat, pre: nat, size: nat, pool: set<int>, min: nat,
                                       displacement: int)
    requires i < |list| && WellFormed(list, min) && min > 0 && pre + size <= list[i].size
    requires WholeIn(Bytes(list), pool, min, displacement)
    requires (list[i].addr + pre + displacement) % min == 0 && size % min == 0
    ensures AtEdges(Lost(list[i], pre, size, min), pool, min, displacement)
  {
    hide Range, Bytes, Unit, Inside;
    var b := list[i];
    var p, q := b.addr + pre + displacement, b.addr + pre + size + displacement;
    Edges(list, i);
    BlockCovered(list, i);
    DifferenceMultiple(0 - size, p, min) by { ZeroMinus(size, min); }
    forall x | x in Lost(b, pre, size, min) ensures !Inside(pool, x, min, displacement) {
      assert x in Range(b.addr, b.size);
      if x in Range(b.addr, pre) {
        UnitBelow(p, x + displacement, min);
        UnitBelow(p, b.addr - 1 + displacement, min);
        UnitIs(x, min, displacement);
        UnitIs(b.addr - 1, min, displacement);
      } else {
        UnitAbove(q, x + displacement, min);
        UnitAbove(q, b.End() + displacement, min);
        UnitIs(x, min, displacement);
        UnitIs(b.End(), min, displacement);
      }
    }
  }

  lemma {:induction false} UnitIs(x: int, min: nat, displacement: int)
    requires min > 0
    ensures Unit(x, min, displacement) == (x + displacement) / min
  {
  }

  lemma {:induction false} ZeroMinus(x: int, min: nat)
    requires min > 0 && x % min == 0
    ensures (0 - x) % min == 0
  {
    DifferenceMultiple(x, 0, min);
  }

  lemma {:induction false} UnitBelow(p: int, x: int, min: nat)
    requires min > 0 && p % min == 0 && p - min <= x < p
    ensures x / min == p / min - 1
  {
    DivModUnique(x, p / min - 1, min, x - (p - min));
  }

  lemma {:induction false} UnitAbove(p: int, x: int, min: nat)
    requires min > 0 && p % min == 0 && p <= x < p + min
    ensures x / min == p / min
  {
    DivModUnique(x, p / min, min, x - p);
  }

  lemma {:induction false} Edges(list: seq<Block>, i: nat)
    requires WellFormed(list, 1) && i < |list|
    ensures list[i].addr in Bytes(list) && list[i].addr - 1 !in Bytes(list)
    ensures list[i].End() - 1 in Bytes(list) && list[i].End() !in Bytes(list)
  {
    hide Range, Bytes;
    BlockCovered(list, i);
    assert list[i].addr in Range(list[i].addr, list[i].size);
    assert list[i].End() - 1 in Range(list[i].addr, list[i].size);
    BytesMember(list, list[i].addr - 1);
    BytesMember(list, list[i].End());
  }

  lemma {:induction false} DifferenceMultiple(x: int, y: int, min: nat)
    requires min > 0 && x % min == 0 && y % min == 0
    ensures (y - x) % min == 0
  {
    var p, q := x / min, y / min;
    assert x == p * min && y == q * min;
    assert (q - p) * min == q * min - p * min;
    DivModUnique(y - x, q - p, min, 0);
  }
}
