/** Chunks of data: the compressed input and the output buffer of a call to the decompressor, and
    what copying into the output buffer means for the cells that it holds.
  */
module Chunks {
  import opened Bits
  import opened Lz77
  import opened Inflation

  // ----- Chunks of data

  class Chunk {
    const data: array<byte>
    var offset: nat
    const len: nat

    constructor (data: array<byte>, offset: nat, len: nat)
      ensures this.data == data && this.offset == offset && this.len == len
    {
      this.data, this.offset, this.len := data, offset, len;
    }

    ghost predicate Readable()
      reads this
    {
      offset <= len <= data.Length
    }

    /** Input that has not been read yet, as bits. */
    ghost function Unread(): (b: seq<bool>)
      requires Readable()
      reads this, data
      ensures |b| % 8 == 0
    {
      BytesToBits(data[offset..len])
    }

    /** The output buffer holds as much of the output as fits, and counts all of it. */
    ghost predicate Contains(background: seq<byte>, output: seq<Cell>)
      reads this, data
    {
      len <= data.Length && offset == |output| && Holds(data[..len], background, output)
    }

    /** Copy to the output as much as fits, one byte at a time so that the source may overlap the
        bytes being written, and count the rest. */
    method Copy(start: array<byte>, offset: nat, len: nat)
      requires this.len <= data.Length
      requires this.offset < this.len ==> offset + Min(this.len - this.offset, len) <= start.Length
      requires start == data ==> offset <= this.offset
      modifies this`offset, data
      ensures this.offset == old(this.offset) + len
      ensures forall i :: 0 <= i < data.Length && !(old(this.offset) <= i < Min(this.len, this.offset))
                          ==> data[i] == old(data[i])
      ensures start != data ==>
                forall i :: old(this.offset) <= i < Min(this.len, this.offset)
                            ==> data[i] == start[offset + (i - old(this.offset))]
      ensures start == data ==>
                forall i :: old(this.offset) <= i < Min(this.len, this.offset)
                            ==> data[i] == data[offset + (i - old(this.offset))]
      ensures start == data && offset == old(this.offset) ==> data[..] == old(data[..])
    {
      var from, o := offset, this.offset;
      if o < this.len {
        var copyLen: nat := Min(this.len - o, len);
        ghost var end := o + copyLen;
        while copyLen > 0
          invariant o + copyLen == end <= this.len && from + copyLen <= start.Length
          invariant this.offset == old(this.offset)
          invariant old(this.offset) <= o && from - offset == o - old(this.offset)
          invariant forall i :: 0 <= i < data.Length && !(old(this.offset) <= i < o) ==> data[i] == old(data[i])
          invariant start != data ==>
                      forall i :: old(this.offset) <= i < o ==> data[i] == start[offset + (i - old(this.offset))]
          invariant start == data ==>
                      forall i :: old(this.offset) <= i < o ==> data[i] == data[offset + (i - old(this.offset))]
          invariant start == data && offset == old(this.offset) ==> data[..] == old(data[..])
        {
          data[o] := start[from];
          o, from, copyLen := o + 1, from + 1, copyLen - 1;
        }
      }
      this.offset := this.offset + len;
    }
  }

  /** Append one literal byte to the output. */
  method EmitByte(out: Chunk, x: byte, ghost background: seq<byte>, ghost cells: seq<Cell>)
    requires out.Contains(background, cells)
    modifies out`offset, out.data
    ensures out.Contains(background, cells + [Byte(x)])
  {
    ghost var before := out.data[..out.len];
    var literal := new byte[1](_ => x);
    out.Copy(literal, 0, 1);
    HoldsAppend(before, out.data[..out.len], background, cells, [x]);
    assert Bytes([x]) == [Byte(x)];
  }

  /** Append a duplicate of earlier output. */
  method EmitDuplicate(out: Chunk, distance: nat, len: nat, ghost background: seq<byte>, ghost cells: seq<Cell>)
    requires out.Contains(background, cells) && distance <= |cells|
    modifies out`offset, out.data
    ensures out.Contains(background, Duplicate(cells, distance, len))
  {
    hide Duplicate;
    ghost var before := out.data[..out.len];
    ghost var whole := out.data[..];
    out.Copy(out.data, out.offset - distance, len);
    assert distance == 0 ==> out.data[..] == whole && out.data[..out.len] == before;
    HoldsDuplicate(before, out.data[..out.len], background, cells, distance, len);
  }

  // ----- What copying means for the cells of the output

  lemma {:induction false} HoldsAppend(data: seq<byte>, data': seq<byte>, background: seq<byte>,
                                       out: seq<Cell>, s: seq<byte>)
    requires Holds(data, background, out) && |data'| == |data|
    requires forall i :: 0 <= i < |data| && !(|out| <= i < |out| + |s|) ==> data'[i] == data[i]
    requires forall i :: |out| <= i < |data| && i < |out| + |s| ==> data'[i] == s[i - |out|]
    ensures Holds(data', background, out + Bytes(s))
  {
    var r := out + Bytes(s);
    forall i | 0 <= i < |data'| && i < |r| ensures r[i].Stale? ==> r[i].pos <= i {}
    forall i | 0 <= i < |data'| && i < |r| ensures data'[i] == Value(r[i], background) {
      if i >= |out| {
        assert r[i] == Bytes(s)[i - |out|];
      }
    }
  }

  lemma {:induction false} DuplicateCell(out: seq<Cell>, distance: nat, len: nat, i: nat)
    requires distance <= |out| && i < |out| + len
    ensures i < |out| ==> Duplicate(out, distance, len)[i] == out[i]
    ensures |out| <= i && distance == 0 ==> Duplicate(out, distance, len)[i] == Stale(i)
    ensures |out| <= i && distance > 0 ==>
              Duplicate(out, distance, len)[i] == Duplicate(out, distance, len)[i - distance]
    decreases len
  {
    if len > 0 {
      var c := if distance == 0 then Stale(|out|) else out[|out| - distance];
      DuplicateCell(out + [c], distance, len - 1, i);
      if i == |out| && distance > 0 {
        DuplicateCell(out + [c], distance, len - 1, i - distance);
      }
    }
  }

  lemma {:induction false} HeldByCopy(data: seq<byte>, data': seq<byte>, background: seq<byte>,
                                      out: seq<Cell>, distance: nat, len: nat, i: nat)
    requires Holds(data, background, out) && |data'| == |data| && distance <= |out|
    requires forall j :: 0 <= j < |data| && !(|out| <= j < |out| + len) ==> data'[j] == data[j]
    requires forall j :: |out| <= j < |data| && j < |out| + len ==> data'[j] == data'[j - distance]
    requires distance == 0 ==> data' == data
    requires i < |data| && i < |out| + len
    ensures var c := Duplicate(out, distance, len)[i];
            (c.Stale? ==> c.pos <= i) && data'[i] == Value(c, background)
    decreases i
  {
    DuplicateBackward(out, distance, len);
    DuplicateCell(out, distance, len, i);
    if i >= |out| && distance > 0 {
      HeldByCopy(data, data', background, out, distance, len, i - distance);
    }
  }

  lemma {:induction false} HoldsDuplicate(data: seq<byte>, data': seq<byte>, background: seq<byte>,
                       out: seq<Cell>, distance: nat, len: nat)
    requires Holds(data, background, out) && |data'| == |data| && distance <= |out|
    requires forall j :: 0 <= j < |data| && !(|out| <= j < |out| + len) ==> data'[j] == data[j]
    requires forall j :: |out| <= j < |data| && j < |out| + len ==> data'[j] == data'[j - distance]
    requires distance == 0 ==> data' == data
    ensures Holds(data', background, Duplicate(out, distance, len))
  {
    var r := Duplicate(out, distance, len);
    DuplicateBackward(out, distance, len);
    forall i | 0 <= i < |data'| && i < |r| ensures data'[i] == Value(r[i], background) {
      HeldByCopy(data, data', background, out, distance, len, i);
    }
  }
}
