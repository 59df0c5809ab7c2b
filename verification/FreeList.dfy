/** The list of free memory blocks as a value, and the set of bytes that it covers.

    A list that is in ascending address order, whose blocks neither overlap nor touch and are not
    empty, is determined by the bytes that it covers.  What allocation and freeing do to the list
    can therefore be stated as what they do to a set of bytes.
  */
module FreeList {

  datatype Block = Block(addr: nat, size: nat)
  {
    function End(): nat { addr + size }
  }

  /** The bytes from `addr` up to `addr + size`. */
  ghost function Range(addr: int, size: nat): (r: set<int>)
    ensures forall x :: x in r <==> addr <= x < addr + size
  {
    if size == 0 then {} else Range(addr, size - 1) + {addr + size - 1}
  }

  ghost function Bytes(list: seq<Block>): set<int> {
    if list == [] then {} else Range(list[0].addr, list[0].size) + Bytes(list[1..])
  }

  /** Ascending, with a gap between neighbours. */
  ghost predicate Ordered(list: seq<Block>) {
    forall i, j :: 0 <= i < j < |list| ==> list[i].End() < list[j].addr
  }

  /** Every block is at least `min` bytes. */
  ghost predicate AtLeast(list: seq<Block>, min: nat) {
    forall i :: 0 <= i < |list| ==> list[i].size >= min
  }

  ghost predicate WellFormed(list: seq<Block>, min: nat) {
    Ordered(list) && AtLeast(list, min)
  }

  // ----- Bytes of a list

  lemma {:induction false} BytesAppend(a: seq<Block>, b: seq<Block>)
    ensures Bytes(a + b) == Bytes(a) + Bytes(b)
  {
    if a == [] {
      assert a + b == b;
    } else {
      assert (a + b)[1..] == a[1..] + b;
      BytesAppend(a[1..], b);
    }
  }

  lemma {:induction false} BytesOne(b: Block)
    ensures Bytes([b]) == Range(b.addr, b.size)
  {
  }

  /** A byte is covered by a list exactly when some block holds it. */
  lemma {:induction false} BytesMember(list: seq<Block>, x: int)
    ensures x in Bytes(list) <==> exists i :: 0 <= i < |list| && list[i].addr <= x < list[i].End()
  {
    hide Range;
    if list != [] {
      BytesMember(list[1..], x);
      if x in Bytes(list[1..]) {
        var i :| 0 <= i < |list[1..]| && list[1..][i].addr <= x < list[1..][i].End();
        assert list[i + 1].addr <= x < list[i + 1].End();
      }
      if exists i :: 0 < i < |list| && list[i].addr <= x < list[i].End() {
        var i :| 0 < i < |list| && list[i].addr <= x < list[i].End();
        assert list[1..][i - 1] == list[i];
      }
    }
  }

  lemma {:induction false} BlockCovered(list: seq<Block>, i: nat)
    requires i < |list|
    ensures Range(list[i].addr, list[i].size) <= Bytes(list)
  {
    forall x | x in Range(list[i].addr, list[i].size) ensures x in Bytes(list) {
      BytesMember(list, x);
    }
  }

  lemma {:induction false} BytesSplit(list: seq<Block>, i: nat)
    requires i <= |list|
    ensures Bytes(list) == Bytes(list[..i]) + Bytes(list[i..])
  {
    assert list == list[..i] + list[i..];
    BytesAppend(list[..i], list[i..]);
  }

  lemma {:induction false} BytesAt(list: seq<Block>, i: nat)
    requires i < |list|
    ensures Bytes(list) == Bytes(list[..i]) + Range(list[i].addr, list[i].size) + Bytes(list[i + 1..])
  {
    BytesSplit(list, i);
    assert list[i..][1..] == list[i + 1..];
  }

  lemma {:induction false} BytesBelow(list: seq<Block>, bound: int)
    requires forall i :: 0 <= i < |list| ==> list[i].End() <= bound
    ensures forall x :: x in Bytes(list) ==> x < bound
  {
    forall x | x in Bytes(list) ensures x < bound {
      BytesMember(list, x);
    }
  }

  lemma {:induction false} BytesAbove(list: seq<Block>, bound: int)
    requires forall i :: 0 <= i < |list| ==> list[i].addr >= bound
    ensures forall x :: x in Bytes(list) ==> x >= bound
  {
    forall x | x in Bytes(list) ensures x >= bound {
      BytesMember(list, x);
    }
  }

  /** Removing one block from an ordered list removes exactly its bytes. */
  lemma {:induction false} BytesRemove(list: seq<Block>, i: nat)
    requires i < |list| && Ordered(list)
    ensures Bytes(list[..i] + list[i + 1..]) == Bytes(list) - Range(list[i].addr, list[i].size)
    ensures Ordered(list[..i] + list[i + 1..])
  {
    hide Range;
    BytesAppend(list[..i], list[i + 1..]);
    BytesAt(list, i);
    BytesBelow(list[..i], list[i].addr);
    BytesAbove(list[i + 1..], list[i].End());
  }

  /** Inserting a block adds exactly its bytes. */
  lemma {:induction false} BytesInsert(list: seq<Block>, i: nat, b: Block)
    requires i <= |list|
    ensures Bytes(list[..i] + [b] + list[i..]) == Bytes(list) + Range(b.addr, b.size)
  {
    BytesAppend(list[..i] + [b], list[i..]);
    BytesAppend(list[..i], [b]);
    BytesOne(b);
    BytesSplit(list, i);
  }

  lemma {:induction false} RangeSize(addr: int, size: nat)
    ensures |Range(addr, size)| == size
  {
    if size == 0 {
      assert Range(addr, 0) == {};
    } else {
      RangeSize(addr, size - 1);
      assert Range(addr, size) == Range(addr, size - 1) + {addr + size - 1};
    }
  }

  lemma {:induction false} RangeSplit(addr: int, n: nat, m: nat)
    ensures Range(addr, n + m) == Range(addr, n) + Range(addr + n, m)
    ensures Range(addr, n) !! Range(addr + n, m)
  {
  }

  // ----- The list is determined by its bytes

  lemma {:induction false} FirstIsLeast(list: seq<Block>)
    requires WellFormed(list, 1) && list != []
    ensures list[0].addr in Bytes(list) && forall x :: x in Bytes(list) ==> x >= list[0].addr
    ensures list[0].End() !in Bytes(list)
    ensures Bytes(list[1..]) == Bytes(list) - Range(list[0].addr, list[0].size)
  {
    hide Range;
    BlockCovered(list, 0);
    BytesAbove(list, list[0].addr);
    BytesAbove(list[1..], list[0].End() + 1);
  }

  lemma {:induction false} BytesDetermineList(a: seq<Block>, b: seq<Block>)
    requires WellFormed(a, 1) && WellFormed(b, 1) && Bytes(a) == Bytes(b)
    ensures a == b
    decreases |a|
  {
    hide Range;
    if a == [] {
      if b != [] {
        FirstIsLeast(b);
      }
    } else {
      FirstIsLeast(a);
      assert b != [];
      FirstIsLeast(b);
      SameFirst(a, b);
      BytesDetermineList(a[1..], b[1..]);
      assert a == [a[0]] + a[1..] && b == [b[0]] + b[1..];
    }
  }

  lemma {:induction false} SameFirst(a: seq<Block>, b: seq<Block>)
    requires WellFormed(a, 1) && WellFormed(b, 1) && Bytes(a) == Bytes(b) && a != [] && b != []
    ensures a[0] == b[0]
  {
    hide Range;
    FirstIsLeast(a);
    FirstIsLeast(b);
    assert a[0].addr == b[0].addr;
    BlockCovered(a, 0);
    BlockCovered(b, 0);
  }
}
