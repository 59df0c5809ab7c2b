/** Decompressed output and string duplication.

    The output buffer is written in place and a copy may start at the very byte that it is about
    to write (distance zero, which the undefined distance codes can ask for).  Such a copy leaves
    in the buffer what the caller had there, so an output cell is either a byte that the stream
    determines or the stale byte that the buffer held at some position before decompression.
  */
module Lz77 {
  import opened Bits

  datatype Cell = Byte(b: byte) | Stale(pos: nat)

  /** Append `len` cells, each copied from `distance` cells before the end as it is then. */
  function Duplicate(out: seq<Cell>, distance: nat, len: nat): (r: seq<Cell>)
    requires distance <= |out|
    ensures |r| == |out| + len
    decreases len
  {
    if len == 0 then out
    else
      var c := if distance == 0 then Stale(|out|) else out[|out| - distance];
      Duplicate(out + [c], distance, len - 1)
  }

  /** Duplication in closed form: the last `distance` cells repeated for ever. */
  lemma {:induction false} DuplicateAt(out: seq<Cell>, distance: nat, len: nat, i: nat)
    requires 0 < distance <= |out| && i < |out| + len
    ensures Duplicate(out, distance, len)[i]
            == if i < |out| then out[i] else out[|out| - distance + Rotate(i - |out|, distance)]
    decreases len
  {
    hide Rotate;
    if len > 0 {
      var n := |out|;
      var out' := out + [out[n - distance]];
      DuplicateAt(out', distance, len - 1, i);
      RotateStep(if i > n then i - n - 1 else 0, distance);
    }
  }

  function Rotate(j: nat, d: nat): (r: nat)
    requires d > 0
    ensures r < d
  {
    j % d
  }

  lemma {:induction false} RotateStep(j: nat, d: nat)
    requires d > 0
    ensures Rotate(0, d) == 0
    ensures Rotate(j + 1, d) == if Rotate(j, d) == d - 1 then 0 else Rotate(j, d) + 1
  {
    var q, r := j / d, j % d;
    if r == d - 1 {
      assert (q + 1) * d == q * d + d;
      DivModUnique(j + 1, q + 1, d, 0);
    } else {
      DivModUnique(j + 1, q, d, r + 1);
    }
  }

  lemma {:induction false} DuplicateExtends(out: seq<Cell>, distance: nat, len: nat)
    requires distance <= |out|
    ensures out <= Duplicate(out, distance, len)
    decreases len
  {
    if len > 0 {
      var c := if distance == 0 then Stale(|out|) else out[|out| - distance];
      DuplicateExtends(out + [c], distance, len - 1);
    }
  }

  /** Every cell is a byte that the stream determines. */
  ghost predicate Determined(out: seq<Cell>) {
    forall i :: 0 <= i < |out| ==> out[i].Byte?
  }

  /** No stale cell refers forward, so a buffer that can hold the cell can supply its value. */
  ghost predicate Backward(out: seq<Cell>) {
    forall i :: 0 <= i < |out| && out[i].Stale? ==> out[i].pos <= i
  }

  lemma {:induction false} DuplicateDetermined(out: seq<Cell>, distance: nat, len: nat)
    requires distance <= |out| && len > 0
    ensures Determined(Duplicate(out, distance, len)) <==> Determined(out) && distance > 0
    decreases len
  {
    var c := if distance == 0 then Stale(|out|) else out[|out| - distance];
    assert Determined(out + [c]) <==> Determined(out) && c.Byte? by {
      assert (out + [c])[|out|] == c;
      assert forall i :: 0 <= i < |out| ==> (out + [c])[i] == out[i];
    }
    if len > 1 {
      DuplicateDetermined(out + [c], distance, len - 1);
    }
  }

  lemma {:induction false} DuplicateBackward(out: seq<Cell>, distance: nat, len: nat)
    requires distance <= |out| && Backward(out)
    ensures Backward(Duplicate(out, distance, len))
    decreases len
  {
    if len > 0 {
      var c := if distance == 0 then Stale(|out|) else out[|out| - distance];
      DuplicateBackward(out + [c], distance, len - 1);
    }
  }

  /** What a buffer holding `background` before decompression holds for a cell. */
  function Value(c: Cell, background: seq<byte>): byte
    requires c.Stale? ==> c.pos < |background|
  {
    match c
    case Byte(b) => b
    case Stale(p) => background[p]
  }

  /** The buffer holds the cells that fit, and still its old contents beyond them. */
  ghost predicate Holds(data: seq<byte>, background: seq<byte>, out: seq<Cell>) {
    |data| == |background| && Backward(out)
    && (forall i :: 0 <= i < |data| && i < |out| ==> data[i] == Value(out[i], background))
    && (forall i :: |out| <= i < |data| ==> data[i] == background[i])
  }

  /** The cells of a buffer before anything is decompressed into it from `offset` on. */
  function Untouched(offset: nat): (out: seq<Cell>)
    ensures |out| == offset && forall i :: 0 <= i < offset ==> out[i] == Stale(i)
  {
    if offset == 0 then [] else Untouched(offset - 1) + [Stale(offset - 1)]
  }

  /** Any buffer can be decompressed into from any offset. */
  lemma {:induction false} HoldsInitially(data: seq<byte>, offset: nat)
    ensures Holds(data, data, Untouched(offset))
  {
  }

  /** Once determined, what a buffer holds does not depend on what it held before. */
  lemma {:induction false} HoldsDetermined(data: seq<byte>, background: seq<byte>, out: seq<Cell>)
    requires Holds(data, background, out) && Determined(out)
    ensures forall i :: 0 <= i < |data| && i < |out| ==> Byte(data[i]) == out[i]
  {
  }
}
