/** A caller that supplies compressed data in fragments, as the self-tests of the decompressor do:
    a new input chunk for each fragment, one output chunk throughout.
  */
module Fragments {
  import opened Bits
  import opened Lz77
  import opened Inflation
  import opened Chunks
  import opened DeflateTables
  import opened Deflate
  import opened Alphabets
  import opened BitBuffer
  import DeflateFormat

  /** End positions of consecutive fragments that together cover `n` bytes. */
  predicate Cuts(ends: seq<nat>, from: nat, n: nat) {
    if ends == [] then from == n else from <= ends[0] <= n && Cuts(ends[1..], ends[0], n)
  }

  /** What a caller sees after an outcome of the transducer.  After a failure the finished flag says
      whether the decompressor had no resume point before the failing call. */
  ghost predicate Seen(o: Outcome, rc: Status, finished: bool, unstarted: bool, out: Chunk, background: seq<byte>)
    reads out, out.data
  {
    match o
    case Waiting(s, _) => rc == Ok && !finished && out.Contains(background, s.output)
    case Failed(e, output) => rc == Err(e) && finished == unstarted && out.Contains(background, output)
    case Finished(output, _) => rc == Ok && finished && out.Contains(background, output)
  }

  /** Everything but the input chunk that a further call needs. */
  ghost predicate Usable(d: Decompressor, compressed: array<byte>, out: Chunk)
    reads d, out, out.data, d.lengths, d.litlen.Tables(), d.distanceCodelen.Tables()
  {
    d.Shape() && Correct(d.tables) && d.Buffered() && out.len <= out.data.Length
    && compressed != out.data && compressed != d.lengths && out.data != d.lengths
    && compressed !in d.litlen.Tables() + d.distanceCodelen.Tables()
    && out.data !in d.litlen.Tables() + d.distanceCodelen.Tables()
    && if d.resume == AtStart then d.EndRoom()
       else d.state.format == d.format && d.state.final == (d.header % 2 == 1) && d.PhaseAt(d.resume)
            && out.Contains(d.background, d.state.output)
  }

  /** Whatever the cuts, feeding the fragments one by one until decompression fails, finishes or
      runs out of fragments shows the caller what decompressing the whole input at once would,
      except for one thing: after a failure the decompressor counts as finished exactly if it had
      no resume point and the first fragment already fails. */
  method InflateFragments(d: Decompressor, compressed: array<byte>, ends: seq<nat>, out: Chunk)
    returns (rc: Status)
    requires Usable(d, compressed, out) && ends != [] && Cuts(ends, 0, compressed.Length)
    modifies d, out`offset, out.data, d.lengths, d.litlen.Tables(), d.distanceCodelen.Tables()
    ensures Seen(Run(old(d.From(out)), old(d.buffered) + BytesToBits(compressed[..])),
                 rc, d.IsFinished(),
                 old(d.IsFinished()) && Run(old(d.From(out)),
                   old(d.buffered) + BytesToBits(compressed[..ends[0]])).Failed?,
                 out, old(d.Behind(out)))
  {
    hide Run, Decompressor.Shape, Mirrored, Correct, Decompressor.PhaseAt, Chunk.Contains, BytesToBits;
    ghost var goal := Run(d.From(out), d.buffered + BytesToBits(compressed[..]));
    ghost var background := d.Behind(out);
    ghost var first := Run(d.From(out), d.buffered + BytesToBits(compressed[..ends[0]]));
    var offset := 0;
    assert compressed[0..] == compressed[..] && compressed[0..ends[0]] == compressed[..ends[0]];
    for i := 0 to |ends|
      invariant offset <= compressed.Length && Cuts(ends[i..], offset, compressed.Length)
      invariant compressed[..] == old(compressed[..])
      invariant Usable(d, compressed, out) && d.Behind(out) == background
      invariant goal == Run(d.From(out), d.buffered + BytesToBits(compressed[offset..]))
      invariant i == 0 ==> offset == 0 && d.From(out) == old(d.From(out)) && d.buffered == old(d.buffered)
                           && d.IsFinished() == old(d.IsFinished())
      invariant i > 0 ==> first.Waiting?
      invariant i > 0 ==> !d.IsFinished() && out.Contains(background, d.From(out).output)
                          && Run(d.From(out), d.buffered) == Waiting(d.From(out), d.buffered)
    {
      var end := ends[i];
      ghost var s, b, rest := d.From(out), d.buffered, BytesToBits(compressed[end..]);
      ghost var o := Run(s, b + BytesToBits(compressed[offset..end]));
      FragmentResumes(s, b, compressed[..], offset, end);
      rc := InflateFragment(d, compressed, offset, end, out);
      if rc.Err? || d.IsFinished() {
        return;
      }
      offset := end;
    }
    assert compressed[offset..] == [];
    assert d.buffered + BytesToBits([]) == d.buffered by { assert BytesToBits([]) == []; }
    rc := Ok;
  }

  /** Decompress one fragment. */
  method InflateFragment(d: Decompressor, compressed: array<byte>, offset: nat, end: nat, out: Chunk)
    returns (rc: Status)
    requires Usable(d, compressed, out) && offset <= end <= compressed.Length
    modifies d, out`offset, out.data, d.lengths, d.litlen.Tables(), d.distanceCodelen.Tables()
    ensures var o := Run(old(d.From(out)), old(d.buffered) + BytesToBits(compressed[offset..end]));
            && Seen(o, rc, d.IsFinished(), old(d.IsFinished()), out, old(d.Behind(out)))
            && (o.Waiting? ==> Usable(d, compressed, out) && d.Behind(out) == old(d.Behind(out))
                               && d.From(out) == o.state && d.buffered == o.pending)
  {
    hide Run, Decompressor.Shape, Mirrored, Correct, Decompressor.PhaseAt, Chunk.Contains, BytesToBits;
    var in_ := new Chunk(compressed, offset, end);
    rc := d.Inflate(in_, out);
    if rc.Ok? && !d.IsFinished() {
      NothingUnread(in_);
      assert d.Pending(in_) == d.buffered;
    }
  }

  lemma {:induction false} NothingUnread(in_: Chunk)
    requires in_.Readable() && in_.offset == in_.len
    ensures in_.Unread() == []
  {
    assert in_.data[in_.offset..in_.len] == [];
  }

  lemma {:induction false} FragmentResumes(s: State, b: seq<bool>, compressed: seq<byte>, offset: nat, end: nat)
    requires offset <= end <= |compressed|
    ensures Run(s, b + BytesToBits(compressed[offset..]))
            == Resume(Run(s, b + BytesToBits(compressed[offset..end])), BytesToBits(compressed[end..]))
    ensures var o := Run(s, b + BytesToBits(compressed[offset..end]));
            o.Waiting? ==> Run(o.state, o.pending) == o
  {
    hide Run, BytesToBits;
    var chunk, rest := BytesToBits(compressed[offset..end]), BytesToBits(compressed[end..]);
    assert compressed[offset..] == compressed[offset..end] + compressed[end..];
    BytesToBitsAppend(compressed[offset..end], compressed[end..]);
    assert b + BytesToBits(compressed[offset..]) == b + chunk + rest;
    RunResumes(s, b + chunk, rest);
    var o := Run(s, b + chunk);
    RunResumes(s, b + chunk, []);
    assert b + chunk + [] == b + chunk;
    if o.Waiting? {
      assert o.pending + [] == o.pending;
    }
  }

  /** The same byte, whose header is that of a reserved block type, fails either way, but the
      decompressor then counts as finished if it is given whole and not if an empty fragment comes
      first. */
  method FlagDependsOnCuts(tables: Tables, compressed: array<byte>, out: Chunk) returns (whole: bool, cut: bool)
    requires Correct(tables) && compressed.Length == 1 && compressed[0] == 7
    requires compressed != out.data && out.len <= out.data.Length
    modifies out`offset, out.data
    ensures whole && !cut
  {
    hide Correct;
    whole := FinishedAfter(tables, compressed, [1], out);
    cut := FinishedAfter(tables, compressed, [0, 1], out);
  }

  /** The flag after a failure of a new decompressor on the byte in fragments. */
  method FinishedAfter(tables: Tables, compressed: array<byte>, ends: seq<nat>, out: Chunk) returns (finished: bool)
    requires Correct(tables) && compressed.Length == 1 && compressed[0] == 7
    requires compressed != out.data && out.len <= out.data.Length
    requires ends != [] && Cuts(ends, 0, 1)
    modifies out`offset, out.data
    ensures finished <==> ends[0] == 1
  {
    hide Run, Mirrored, Correct, Chunk.Contains, Decompressor.Shape, BytesToBits, Seen;
    var d := new Decompressor(Raw, tables);
    ReservedFails(d.header % 2 == 1, Untouched(out.offset));
    assert compressed[..] == [7] && compressed[..ends[0]] == if ends[0] == 1 then [7] else [];
    ghost var o := Run(d.From(out), d.buffered + BytesToBits([7]));
    ghost var background := d.Behind(out);
    var rc := InflateFragments(d, compressed, ends, out);
    finished := d.IsFinished();
    SeenFailed(o, rc, finished, ends[0] == 1, out, background);
  }

  lemma {:induction false} SeenFailed(o: Outcome, rc: Status, finished: bool, unstarted: bool, out: Chunk,
                                      background: seq<byte>)
    requires Seen(o, rc, finished, unstarted, out, background) && o.Failed?
    ensures finished == unstarted
  {
  }

  lemma {:induction false} ReservedFails(final: bool, output: seq<Cell>)
    ensures var s := State(BlockHeader, Raw, final, output);
            Run(s, [] + BytesToBits([7])).Failed? && Run(s, [] + BytesToBits([])).Waiting?
  {
    hide Construct, StaticLit, StaticDist, Run;
    var b := [] + BytesToBits([7]);
    assert BytesToBits([]) == [];
    assert b == ToBits(7, 8) && b[..3] == ToBits(7, 3);
    LsbToBits(7, 3);
    Pow2Values();
    var s := State(BlockHeader, Raw, final, output);
    assert Step(s, b) == Fail(ENOTSUP);
    RunStops(s, b);
    assert [] + BytesToBits([]) == [];
    RunStops(s, []);
  }

  lemma {:induction false} RunStops(s: State, b: seq<bool>)
    ensures Step(s, b).Fail? ==> Run(s, b).Failed?
    ensures Step(s, b).NeedInput? ==> Run(s, b).Waiting?
  {
    hide Step;
  }

  /** The bytes of a stream that RFC 1951, or with a zlib header and footer RFC 1950, lets a
      compressor write, followed by anything.  Nothing is asked of what follows an unsupported header. */
  ghost predicate IsStream(bits: seq<bool>, format: Format, header: nat, blocks: seq<DeflateFormat.Block>)
    requires DeflateFormat.WritableBlocks(blocks, [])
  {
    if format == Raw then DeflateFormat.StreamBits(blocks, 0, []) <= bits
    else header < 0x1_0000
         && if DeflateFormat.Supported(header) then exists fill, tail :: IsZlib(bits, blocks, header, fill, tail)
            else ToBits(header, 16) <= bits
  }

  ghost predicate IsZlib(bits: seq<bool>, blocks: seq<DeflateFormat.Block>, header: nat, fill: seq<bool>,
                         tail: seq<bool>)
    requires DeflateFormat.WritableBlocks(blocks, [])
  {
    |fill| == 7 && |tail| >= 32 && |tail| % 8 == 0 && bits == DeflateFormat.ZlibBits(blocks, header, fill, tail)
  }

  /** What becomes of such a stream: the error, if any, and the plain data. */
  ghost function Result(format: Format, header: nat, blocks: seq<DeflateFormat.Block>): (Status, seq<Cell>)
    requires DeflateFormat.WritableBlocks(blocks, [])
  {
    if format == Zlib && !DeflateFormat.Supported(header) then (Err(ENOTSUP), [])
    else if DeflateFormat.AllAccepted(blocks) then (Ok, DeflateFormat.ApplyBlocks(blocks, []))
    else (Err(EINVAL), DeflateFormat.Reached(blocks, []))
  }

  /** Such a stream decompresses exactly if its header is supported and all its blocks are accepted. */
  lemma {:induction false} RunStream(bits: seq<bool>, format: Format, header: nat, blocks: seq<DeflateFormat.Block>,
                                     final: bool)
    requires blocks != [] && DeflateFormat.WritableBlocks(blocks, []) && IsStream(bits, format, header, blocks)
    requires |bits| % 8 == 0
    ensures var o := Run(State(if format == Zlib then ZlibHeader else BlockHeader, format, final, []), bits);
            var (rc, plain) := Result(format, header, blocks);
            if rc == Ok then o.Finished? && o.output == plain else o == Failed(rc.error, plain)
  {
    hide Run, DeflateFormat.WritableBlocks, DeflateFormat.StreamBits, DeflateFormat.ApplyBlocks, ToBits,
         DeflateFormat.AllAccepted, DeflateFormat.Reached, DeflateFormat.ZlibBits;
    if format == Raw {
      var stream := DeflateFormat.StreamBits(blocks, 0, []);
      assert bits == stream + bits[|stream|..];
      DeflateFormat.InflateInvertsRaw(blocks, final, bits[|stream|..]);
    } else if DeflateFormat.Supported(header) {
      var fill, tail :| IsZlib(bits, blocks, header, fill, tail);
      DeflateFormat.InflateInvertsZlib(blocks, final, header, fill, tail);
    } else {
      assert bits == ToBits(header, 16) + bits[16..];
      DeflateFormat.UnsupportedHeader(header, final, bits[16..]);
    }
  }

  /** Decompress a stream that some compressor wrote, in fragments of any sizes.  If its header is
      supported and all its blocks are accepted, the call sequence succeeds and finishes, the final
      offset is the length of the plain data, and the buffer holds as much of the plain data as fits,
      whatever it held before.  Otherwise it ends with an error and the plain data of the blocks before
      the first that is not, which is none for an unsupported header. */
  method DecompressWritten(format: Format, tables: Tables, compressed: array<byte>, ends: seq<nat>, out: Chunk,
                           ghost header: nat, ghost blocks: seq<DeflateFormat.Block>)
    returns (rc: Status, finished: bool)
    requires Correct(tables) && compressed != out.data && out.offset == 0 && out.len <= out.data.Length
    requires ends != [] && Cuts(ends, 0, compressed.Length)
    requires blocks != [] && DeflateFormat.WritableBlocks(blocks, [])
    requires IsStream(BytesToBits(compressed[..]), format, header, blocks)
    modifies out`offset, out.data
    ensures rc == Result(format, header, blocks).0 && (rc == Ok ==> finished)
    ensures var plain := Result(format, header, blocks).1;
            out.offset == |plain| && forall i :: 0 <= i < out.len && i < |plain| ==> Byte(out.data[i]) == plain[i]
  {
    hide Run, Mirrored, Correct, IsStream, Seen, BytesToBits, Decompressor.Shape, DeflateFormat.WritableBlocks,
         DeflateFormat.ApplyBlocks, DeflateFormat.AllAccepted, DeflateFormat.Reached, DeflateFormat.Supported;
    var d := new Decompressor(format, tables);
    ghost var bits := BytesToBits(compressed[..]);
    RunStream(bits, format, header, blocks, d.header % 2 == 1);
    assert Untouched(0) == [];
    assert d.buffered + bits == bits;
    ghost var o, unstarted := Run(d.From(out), bits),
                                  Run(d.From(out), d.buffered + BytesToBits(compressed[..ends[0]])).Failed?;
    ghost var background := d.Behind(out);
    rc := InflateFragments(d, compressed, ends, out);
    finished := d.IsFinished();
    PlainStream(blocks);
    SeenPlain(o, rc, finished, unstarted, out, background);
  }

  lemma {:induction false} PlainStream(blocks: seq<DeflateFormat.Block>)
    requires DeflateFormat.WritableBlocks(blocks, [])
    ensures Determined(DeflateFormat.ApplyBlocks(blocks, [])) && Determined(DeflateFormat.Reached(blocks, []))
  {
    hide DeflateFormat.WritableBlocks, DeflateFormat.ApplyBlocks, DeflateFormat.Reached;
    DeflateFormat.ApplyBlocksDetermined(blocks, []);
    DeflateFormat.ReachedDetermined(blocks, []);
  }

  /** A caller that has seen an outcome with determined output has that output in the buffer. */
  lemma {:induction false} SeenPlain(o: Outcome, rc: Status, finished: bool, unstarted: bool, out: Chunk,
                                     background: seq<byte>)
    requires Seen(o, rc, finished, unstarted, out, background) && Determined(OutputOf(o)) && !o.Waiting?
    ensures rc == (if o.Finished? then Ok else Err(o.error)) && (rc == Ok ==> finished)
    ensures out.len <= out.data.Length && out.offset == |OutputOf(o)|
    ensures forall i :: 0 <= i < out.len && i < out.offset ==> Byte(out.data[i]) == OutputOf(o)[i]
  {
    hide Holds;
    HoldsDetermined(out.data[..out.len], background, OutputOf(o));
    assert forall i :: 0 <= i < out.len ==> out.data[..out.len][i] == out.data[i];
  }
}
