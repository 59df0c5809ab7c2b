/** The decompressor itself: a record that is updated in place as input arrives, with a resume
    label at which it continues when more input is supplied.  Every piece is proved against the
    transducer of module Inflation, whose state is kept beside the fields as a ghost.
  */
module Deflate {
  import opened Bits
  import opened BitBuffer
  import opened Huffman
  import opened Alphabets
  import opened Lz77
  import opened Inflation
  import opened Chunks
  import opened DeflateTables

  /** Points at which decompression can be resumed.  `AtStart` stands for no resume point, which
      is how both a new and a finished decompressor are marked. */
  datatype Label =
    | AtStart
    | AtZlibHeader
    | AtBlockHeader
    | AtLiteralLen
    | AtLiteralNlen
    | AtLiteralData
    | AtDynamicHeader
    | AtDynamicCodelen
    | AtDynamicLitlenDistance
    | AtDynamicLitlenDistanceExtra
    | AtLzhufLitlen
    | AtLzhufLitlenExtra
    | AtLzhufDistance
    | AtLzhufDistanceExtra
    | AtZlibAdler32

  /** How the code at a label ends. */
  datatype Jump = Goto(target: Label) | Blocked | Failing(error: Error) | Ended

  datatype Status = Ok | Err(error: Error)

  /** The code at a label that ends in a jump does one step of the transducer. */
  ghost predicate Took(s0: State, b0: seq<bool>, j: Jump, used: nat, s1: State, b1: seq<bool>) {
    match j
    case Goto(_) => Step(s0, b0) == Next(s1, used) && used <= |b0| && b1 == b0[used..]
    case Blocked => Step(s0, b0) == NeedInput && s1 == s0 && b1 == b0
    case Failing(e) => Step(s0, b0) == Fail(e) && s1 == s0
    case Ended => Step(s0, b0) == Done(|b1|) && s1 == s0 && |b1| <= |b0| && b1 == b0[|b0| - |b1|..]
  }

  class Decompressor {
    var resume: Label
    const format: Format
    const tables: Tables

    var accumulator: uint32
    var rotalumucca: uint32
    var bits: nat

    var header: nat
    var remaining: nat
    var lengthIndex: nat
    var lengthTarget: nat
    var length: nat
    var extraBits: nat
    var dupLen: nat
    var dupDistance: nat

    const litlen: Alphabet
    var litlenCount: nat
    const distanceCodelen: Alphabet
    var distanceCount: nat
    const lengths: array<byte>

    /** The bits in the accumulators. */
    ghost var buffered: seq<bool>
    /** The state of the transducer, including all output so far. */
    ghost var state: State
    /** What the output buffer held before decompression. */
    ghost var background: seq<byte>

    ghost predicate Shape() {
      Reverses(tables.reverse) && lengths.Length == 160
      && litlen.Shaped() && litlen.raw.Length == 288
      && distanceCodelen.Shaped() && distanceCodelen.raw.Length == 32
      && lengths !in litlen.Tables() + distanceCodelen.Tables()
      && this !in litlen.Tables() + distanceCodelen.Tables()
      && litlen.Tables() !! distanceCodelen.Tables()
    }

    ghost predicate Buffered()
      reads this`accumulator, this`rotalumucca, this`bits, this`buffered
    {
      |buffered| == bits && Mirrored(accumulator, rotalumucca, buffered)
    }

    /** All input not used yet: what is buffered followed by what is unread. */
    ghost function Pending(in_: Chunk): seq<bool>
      requires in_.Readable()
      reads this`buffered, in_, in_.data
    {
      buffered + in_.Unread()
    }

    constructor (format: Format, tables: Tables)
      requires Correct(tables)
      ensures Shape() && Correct(this.tables) && this.format == format && resume == AtStart && Buffered() && bits == 0
      ensures fresh(lengths) && fresh(litlen.Tables()) && fresh(distanceCodelen.Tables())
    {
      hide Reverses, Mirrored;
      this.format, this.tables := format, tables;
      resume := AtStart;
      accumulator, rotalumucca, bits, buffered := 0, 0, 0, [];
      NothingMirrored();
      header, remaining, lengthIndex, lengthTarget, length := 0, 0, 0, 0, 0;
      extraBits, dupLen, dupDistance, litlenCount, distanceCount := 0, 0, 0, 0, 0;
      lengths := new byte[160](_ => 0);
      var l := new Alphabet(288);
      var d := new Alphabet(32);
      litlen, distanceCodelen := l, d;
    }

    // ----- Reading bits

    /** Acquire one byte from the input. */
    method Acquire(in_: Chunk)
      requires Shape() && in_.Readable() && Buffered() && bits <= 24 && in_.offset < in_.len
      modifies this`accumulator, this`rotalumucca, this`bits, this`buffered, in_`offset
      ensures Buffered() && bits == old(bits) + 8
      ensures in_.offset == old(in_.offset) + 1 && Pending(in_) == old(Pending(in_))
    {
      var x := in_.data[in_.offset];
      AppendByte(accumulator, rotalumucca, buffered, x);
      accumulator := Or(accumulator, Shl32(x, bits));
      rotalumucca := Or(rotalumucca, Shl32(tables.reverse[x], 24 - bits));
      bits := bits + 8;
      buffered := buffered + ToBits(x, 8);
      UnreadStep(in_.data[..], in_.offset, in_.len);
      in_.offset := in_.offset + 1;
    }

    /** Attempt to accumulate bits from the input. */
    method Accumulate(in_: Chunk, target: nat) returns (excess: int)
      requires Shape() && in_.Readable() && Buffered()
      requires target <= 16 || (target <= 32 && bits % 8 == 0)
      modifies this`accumulator, this`rotalumucca, this`bits, this`buffered, in_`offset
      ensures Buffered() && in_.Readable() && Pending(in_) == old(Pending(in_))
      ensures excess == bits - target
      ensures bits % 8 == old(bits) % 8 && old(bits) <= bits
      ensures bits == old(bits) || bits < target + 8
      ensures bits >= target || in_.offset == in_.len
    {
      ghost var taken := 0;
      while bits < target
        invariant Buffered() && in_.Readable() && Pending(in_) == old(Pending(in_))
        invariant bits == old(bits) + 8 * taken
        invariant bits == old(bits) || bits < target + 8
      {
        if in_.offset >= in_.len {
          break;
        }
        Aligned(old(bits), taken);
        Acquire(in_);
        taken := taken + 1;
      }
      Aligned(old(bits), taken);
      excess := bits - target;
    }

    /** Consume accumulated bits. */
    method Consume(count: nat) returns (data: nat)
      requires Buffered() && count <= bits
      modifies this`accumulator, this`rotalumucca, this`bits, this`buffered
      ensures Buffered() && buffered == old(buffered)[count..]
      ensures data == Lsb(old(buffered)[..count])
    {
      DropBits(accumulator, rotalumucca, buffered, count);
      data := accumulator % Pow2(count);
      accumulator := Shr(accumulator, count);
      rotalumucca := Shl32(rotalumucca, count);
      bits := bits - count;
      buffered := buffered[count..];
    }

    /** Attempt to extract a fixed number of bits; negative if they have not all arrived. */
    method Extract(in_: Chunk, target: nat) returns (data: int)
      requires Shape() && in_.Readable() && Buffered() && target <= 16
      modifies this`accumulator, this`rotalumucca, this`bits, this`buffered, in_`offset
      ensures Buffered() && in_.Readable()
      ensures data >= 0 <==> target <= |old(Pending(in_))|
      ensures data >= 0 ==> data == Lsb(old(Pending(in_))[..target])
      ensures data >= 0 ==> Pending(in_) == old(Pending(in_))[target..]
      ensures data >= 0 ==> bits < 8 || bits == old(bits) - target
      ensures data >= 0 && target == 16 && old(bits) <= 16 && old(bits) % 8 == 0 ==> bits == 0
      ensures data >= 0 && old(bits) >= target ==> bits == old(bits) - target
      ensures data < 0 ==> Pending(in_) == old(Pending(in_)) && in_.offset == in_.len && bits < target
      ensures data < 0 ==> bits % 8 == old(bits) % 8
    {
      hide Shape, Reverses, Mirrored, BytesToBits;
      if target == 0 {
        assert Pending(in_)[..0] == [];
        return 0;
      }
      var excess := Accumulate(in_, target);
      if excess < 0 {
        assert in_.data[in_.offset..in_.len] == [];
        return excess;
      }
      SplitAppend(buffered, in_.Unread(), target);
      OnlySixteen(bits);
      data := Consume(target);
    }

    /** Attempt to decode a Huffman-coded symbol; negative if it has not arrived completely. */
    method Decode(in_: Chunk, alphabet: Alphabet, ghost lens: seq<nat>) returns (code: int)
      requires Shape() && in_.Readable() && Buffered() && bits <= 22
      requires alphabet.Represents(lens)
      modifies this`accumulator, this`rotalumucca, this`bits, this`buffered, in_`offset
      ensures Buffered() && in_.Readable() && bits <= 22
      ensures code >= 0 <==> Huffman.Decode(lens, old(Pending(in_))).Some?
      ensures code >= 0 ==>
                var r := Huffman.Decode(lens, old(Pending(in_))).value;
                code == r.sym && code < |lens| && Pending(in_) == old(Pending(in_))[r.used..]
      ensures code < 0 ==> Pending(in_) == old(Pending(in_)) && in_.offset == in_.len
    {
      hide Shape, Reverses, BytesToBits, Huffman.Decode, Window;
      var _ := Accumulate(in_, MAX_BITS);
      ghost var b := buffered;
      var huf := Shr(rotalumucca, 16);
      WindowOf(accumulator, rotalumucca, b);
      WindowBound(b);
      var k := alphabet.Search(huf, lens);
      var excess := bits - k;
      if excess < 0 {
        DecodeWaits(lens, b, k);
        assert Pending(in_) == b;
        return excess;
      }
      code := alphabet.Symbol(huf, k, lens);
      DecodeByWindow(lens, b, k, code);
      DecodeExtends(lens, b, in_.Unread());
      SplitAppend(buffered, in_.Unread(), k);
      var _ := Consume(k);
    }

    /** Discard bits up to the next byte boundary. */
    method DiscardToByte(in_: Chunk)
      requires Buffered() && in_.Readable()
      modifies this`accumulator, this`rotalumucca, this`bits, this`buffered
      ensures Buffered() && bits % 8 == 0 && old(bits) - 8 < bits <= old(bits)
      ensures |old(Pending(in_))| % 8 <= |old(Pending(in_))|
      ensures Pending(in_) == old(Pending(in_))[|old(Pending(in_))| % 8..]
    {
      WholeBytes(bits);
      assert |Pending(in_)| % 8 == bits % 8;
      var _ := Consume(bits % 8);
      assert Pending(in_) == old(Pending(in_))[old(bits) % 8..];
    }

    // ----- The coupling of the fields with the transducer state

    /** What holds whenever the code at some label starts. */
    ghost predicate Base(in_: Chunk)
      reads this, in_
    {
      Shape() && in_.Readable() && Buffered()
      && state.format == format && state.final == (header % 2 == 1)
    }

    /** How full the accumulators can be between streams. */
    ghost predicate EndRoom()
      reads this`bits
    {
      bits <= if format == Zlib then 32 else 22
    }

    // ----- Headers and literal blocks

    /** Extract the field that the current phase starts with, or note `l` as the point at which
        to resume. */
    method TakeField(in_: Chunk, n: nat, l: Label) returns (x: int)
      requires Shape() && in_.Readable() && Buffered()
      requires !IsCoded(state.phase) && FieldBits(state.phase) == n <= 16
      modifies this`accumulator, this`rotalumucca, this`bits, this`buffered, this`resume, in_`offset
      ensures x >= 0 ==> resume == old(resume)
      ensures in_.Readable() && Buffered()
      ensures x < 0 ==> Step(state, old(Pending(in_))) == NeedInput && Pending(in_) == old(Pending(in_))
      ensures x < 0 ==> resume == l && in_.offset == in_.len && bits < n && bits % 8 == old(bits) % 8
      ensures x >= 0 ==> n <= |old(Pending(in_))| && Pending(in_) == old(Pending(in_))[n..]
      ensures x >= 0 ==> Step(state, old(Pending(in_))) == OnField(state, x, n, |old(Pending(in_))| - n)
      ensures x >= 0 ==> x < Pow2(n) && (bits < 8 || bits == old(bits) - n)
      ensures x >= 0 && n == 16 && old(bits) <= 16 && old(bits) % 8 == 0 ==> bits == 0
    {
      hide Shape, Reverses, Mirrored, BytesToBits, Lsb, Pow2, Step, OnField, FieldBits, IsCoded, Pending, Buffered;
      ghost var b0 := Pending(in_);
      FieldStep(state, b0);
      x := Extract(in_, n);
      if x < 0 {
        resume := l;
      } else {
        LsbBound(b0[..n]);
      }
    }

    method DoZlibHeader(in_: Chunk) returns (j: Jump, ghost used: nat)
      requires Base(in_) && state.phase == ZlibHeader && bits <= 32
      modifies this, in_`offset
      ensures !j.Blocked? ==> resume == old(resume)
      ensures Base(in_) && Took(old(state), old(Pending(in_)), j, used, state, Pending(in_))
      ensures background == old(background) && state.output == old(state.output)
      ensures j.Goto? ==> j.target == AtBlockHeader && state.phase == BlockHeader && bits <= 22
      ensures j.Blocked? ==> resume == AtZlibHeader && bits <= 32 && in_.offset == in_.len
      ensures !j.Ended?
    {
      hide Shape, Step, Reverses, Mirrored, BytesToBits, Lsb, Pow2;
      used := 16;
      var x := TakeField(in_, 16, AtZlibHeader);
      if x < 0 {
        return Blocked, used;
      }
      if x % 16 != 8 || (x / 0x2000) % 2 == 1 {
        return Failing(ENOTSUP), used;
      }
      state := state.(phase := BlockHeader);
      return Goto(AtBlockHeader), used;
    }

    method DoLiteralLen(in_: Chunk) returns (j: Jump, ghost used: nat)
      requires Base(in_) && state.phase == LiteralLen && bits <= 16 && bits % 8 == 0
      modifies this, in_`offset
      ensures !j.Blocked? ==> resume == old(resume)
      ensures Base(in_) && Took(old(state), old(Pending(in_)), j, used, state, Pending(in_))
      ensures background == old(background) && state.output == old(state.output)
      ensures j.Goto? ==> j.target == AtLiteralNlen && state.phase == LiteralNlen(remaining) && bits == 0
      ensures j.Blocked? ==> resume == AtLiteralLen && bits <= 16 && bits % 8 == 0 && in_.offset == in_.len
      ensures j.Goto? || j.Blocked?
    {
      hide Shape, Step, Reverses, Mirrored, BytesToBits, Lsb, Pow2;
      used := 16;
      var x := TakeField(in_, 16, AtLiteralLen);
      if x < 0 {
        return Blocked, used;
      }
      remaining := x;
      state := state.(phase := LiteralNlen(x));
      return Goto(AtLiteralNlen), used;
    }

    /** The lengths are complementary exactly when their bitwise exclusive or with one of them
        inverted has its sixteen low bits clear, that is, when they add up to 0xffff. */
    method DoLiteralNlen(in_: Chunk) returns (j: Jump, ghost used: nat)
      requires Base(in_) && state.phase == LiteralNlen(remaining) && bits <= 16 && bits % 8 == 0
      modifies this, in_`offset
      ensures !j.Blocked? ==> resume == old(resume)
      ensures Base(in_) && Took(old(state), old(Pending(in_)), j, used, state, Pending(in_))
      ensures background == old(background) && state.output == old(state.output)
      ensures j.Goto? ==> j.target == AtLiteralData && state.phase == LiteralData(remaining) && bits == 0
      ensures j.Blocked? ==> resume == AtLiteralNlen && state.phase == LiteralNlen(remaining)
                             && bits <= 16 && bits % 8 == 0 && in_.offset == in_.len
      ensures !j.Ended?
    {
      hide Shape, Step, Reverses, Mirrored, BytesToBits, Lsb, Pow2;
      used := 16;
      var x := TakeField(in_, 16, AtLiteralNlen);
      if x < 0 {
        return Blocked, used;
      }
      if remaining + x != 0xffff {
        return Failing(EINVAL), used;
      }
      state := state.(phase := LiteralData(remaining));
      return Goto(AtLiteralData), used;
    }

    /** What follows a block, whose last step used `n` bits: another block, the end, or the
        checksum. */
    method DoBlockDone(in_: Chunk, ghost n: nat) returns (j: Jump, ghost used: nat)
      requires Base(in_) && bits <= 22
      modifies this`accumulator, this`rotalumucca, this`bits, this`buffered, this`state
      ensures Base(in_) && state == old(state).(phase := state.phase)
      ensures BlockDone(old(state), n, |old(Pending(in_))|)
              == if j.Ended? then Done(|Pending(in_)|) else Next(state, used)
      ensures j.Goto? ==> n <= used <= n + |old(Pending(in_))| && Pending(in_) == old(Pending(in_))[used - n..]
      ensures j.Ended? ==> state == old(state) && Pending(in_) == old(Pending(in_)) && bits <= 22
      ensures j.Goto? ==> (j == Goto(AtBlockHeader) && state.phase == BlockHeader && bits <= 22)
                          || (j == Goto(AtZlibAdler32) && state.phase == Adler32 && format == Zlib && bits <= 32
                            && bits % 8 == 0)
      ensures j.Goto? || j.Ended?
    {
      hide Shape, Step, Reverses, Mirrored, BytesToBits, Lsb, Pow2;
      used := n;
      if header % 2 == 0 {
        state := state.(phase := BlockHeader);
        return Goto(AtBlockHeader), used;
      }
      if format == Raw {
        return Ended, used;
      }
      used := n + |Pending(in_)| % 8;
      DiscardToByte(in_);
      state := state.(phase := Adler32);
      return Goto(AtZlibAdler32), used;
    }

    method DoAdler32(in_: Chunk) returns (j: Jump, ghost used: nat)
      requires Base(in_) && state.phase == Adler32 && format == Zlib && bits <= 32 && bits % 8 == 0
      modifies this, in_`offset
      ensures !j.Blocked? ==> resume == old(resume)
      ensures Base(in_) && Took(old(state), old(Pending(in_)), j, used, state, Pending(in_))
      ensures background == old(background) && state.output == old(state.output)
      ensures j.Blocked? ==> resume == AtZlibAdler32 && bits <= 32 && bits % 8 == 0 && in_.offset == in_.len
      ensures j.Ended? ==> bits <= 32
      ensures j.Ended? || j.Blocked?
    {
      hide Shape, Reverses, Mirrored, Lsb;
      used := 32;
      var excess := Accumulate(in_, 32);
      if excess < 0 {
        resume := AtZlibAdler32;
        assert in_.data[in_.offset..in_.len] == [];
        return Blocked, used;
      }
      return Ended, used;
    }

    ghost predicate Apart(in_: Chunk, out: Chunk) {
      in_ != out && in_.data != out.data && in_.data != lengths && out.data != lengths
      && in_.data !in litlen.Tables() + distanceCodelen.Tables()
      && out.data !in litlen.Tables() + distanceCodelen.Tables()
    }

    /** Copy input bytes straight to the output. */
    method CopyInput(in_: Chunk, out: Chunk, len: nat)
      requires in_.Readable() && Apart(in_, out) && out.Contains(background, state.output)
      requires in_.offset + len <= in_.len
      modifies in_`offset, out`offset, out.data
      ensures in_.Readable() && in_.offset == old(in_.offset) + len
      ensures out.Contains(background, state.output + Bytes(in_.data[old(in_.offset)..in_.offset]))
      ensures old(in_.Unread()) == BytesToBits(in_.data[old(in_.offset)..in_.offset]) + in_.Unread()
    {
      hide BytesToBits, Holds;
      ghost var data := in_.data[in_.offset..in_.offset + len];
      ghost var before := out.data[..out.len];
      UnreadSplit(in_.data[..], in_.offset, len, in_.len);
      out.Copy(in_.data, in_.offset, len);
      HoldsAppend(before, out.data[..out.len], background, state.output, data);
      in_.offset := in_.offset + len;
    }

    /** Copy as much literal data as is at hand.  The accumulators are empty here, so that no byte
        of it is lost or taken twice. */
    method DoLiteralData(in_: Chunk, out: Chunk) returns (blocked: bool)
      requires Base(in_) && Apart(in_, out) && out.Contains(background, state.output)
      requires state.phase == LiteralData(remaining) && bits == 0
      modifies this`remaining, this`resume, this`state, in_`offset, out`offset, out.data
      ensures !blocked ==> resume == old(resume)
      ensures Base(in_) && out.Contains(background, state.output) && background == old(background)
      ensures Run(old(state), old(Pending(in_))) == Run(state, Pending(in_))
      ensures |Pending(in_)| <= |old(Pending(in_))|
      ensures state.phase == LiteralData(remaining) && bits == 0
      ensures blocked ==> resume == AtLiteralData && Step(state, Pending(in_)) == NeedInput
                          && in_.offset == in_.len
      ensures !blocked ==> remaining == 0
    {
      hide Chunk.Contains, Shape, Run, Step, Reverses, Mirrored, BytesToBits, Pow2, Holds;
      var len := Min(in_.len - in_.offset, remaining);
      ghost var s0, from := state, in_.offset;
      assert Pending(in_) == in_.Unread();
      CopyInput(in_, out, len);
      ghost var data := in_.data[from..in_.offset];
      assert Pending(in_) == in_.Unread();
      RunLiteral(s0, data, in_.Unread());
      state := AfterLiteral(s0, data);
      remaining := remaining - len;
      blocked := remaining != 0;
      if blocked {
        resume := AtLiteralData;
        assert in_.data[in_.offset..in_.len] == [];
        assert |Pending(in_)| == 0;
        LiteralWaits(state, Pending(in_));
      }
    }

    // ----- Alphabets

    ghost predicate Counts()
      reads this`litlenCount, this`distanceCount
    {
      257 <= litlenCount <= 288 && 1 <= distanceCount <= 32
    }

    ghost predicate HasAlphabets(lit: seq<nat>, dist: seq<nat>)
      reads litlen.Tables(), distanceCodelen.Tables()
    {
      litlen.Represents(lit) && |lit| <= 288 && distanceCodelen.Represents(dist) && |dist| <= 32
    }

    /** Store the static code lengths, a run of equal bytes at a time. */
    method FillStatic()
      requires Shape()
      modifies lengths
      ensures LengthsAt(lengths[..], 288, 0) == StaticLit()
      ensures LengthsAt(lengths[..], 32, 288) == StaticDist()
    {
      var from := 0;
      for k := 0 to 5
        invariant from == [0, 72, 128, 140, 144, 160][k]
        invariant forall i :: 0 <= i < from ==> lengths[i] == StaticByte(i)
      {
        var (fill, count) := STATIC_PATTERNS[k];
        assert from + count == [0, 72, 128, 140, 144, 160][k + 1];
        for i := from to from + count
          invariant forall i' :: 0 <= i' < i ==> lengths[i'] == StaticByte(i')
        {
          lengths[i] := fill;
        }
        from := from + count;
      }
      StaticLengths(lengths[..]);
    }

    /** Construct the literal/length and distance alphabets from the stored code lengths. */
    method ConstructAlphabets() returns (ok: bool)
      requires Shape() && Counts()
      modifies lengths, litlen.Tables(), distanceCodelen.Tables()
      ensures var lit := LengthsAt(old(lengths[..]), litlenCount, 0);
              var dist := LengthsAt(old(lengths[..]), distanceCount, litlenCount);
              && (ok <==> Complete(lit) && Complete(DistanceCode(dist)))
              && (ok ==> HasAlphabets(lit, DistanceCode(dist)))
    {
      hide Complete;
      ghost var lit := LengthsAt(lengths[..], litlenCount, 0);
      ok := litlen.Build(lengths, litlenCount, 0);
      if !ok {
        return;
      }
      var offset, count := litlenCount, distanceCount;
      if distanceCount == 1 {
        lengths[0] := 0x11;
        offset, count := 0, 2;
        assert LengthsAt(lengths[..], 2, 0) == [1, 1];
      } else {
        assert lengths[..] == old(lengths[..]);
      }
      assert litlen.Represents(lit);
      ok := distanceCodelen.Build(lengths, count, offset);
    }

    /** The code at the start of a compressed block's data. */
    ghost predicate AtData()
      reads this, litlen.Tables(), distanceCodelen.Tables()
    {
      state.phase.Symbol? && HasAlphabets(state.phase.lit, state.phase.dist) && bits <= 22
    }

    method StaticBlock() returns (ok: bool)
      requires Shape()
      modifies this`litlenCount, this`distanceCount, lengths, litlen.Tables(), distanceCodelen.Tables()
      ensures ok <==> Complete(StaticLit()) && Complete(DistanceCode(StaticDist()))
      ensures ok ==> HasAlphabets(StaticLit(), DistanceCode(StaticDist()))
    {
      hide Complete, StaticLit, StaticDist;
      FillStatic();
      litlenCount, distanceCount := 288, 32;
      ok := ConstructAlphabets();
    }

    /** Start a stored block, whose length follows at the next byte boundary. */
    method StartStored(in_: Chunk, x: nat) returns (ghost used: nat)
      requires Shape() && in_.Readable() && Buffered() && bits <= 19
      modifies this`accumulator, this`rotalumucca, this`bits, this`buffered, this`state
      ensures Buffered() && used == |old(Pending(in_))| % 8 <= |old(Pending(in_))|
      ensures Pending(in_) == old(Pending(in_))[used..]
      ensures state == old(state).(final := x % 2 == 1, phase := LiteralLen) && bits <= 16 && bits % 8 == 0
    {
      hide Shape, Mirrored, BytesToBits, Pending, Buffered;
      used := |Pending(in_)| % 8;
      DiscardToByte(in_);
      AtMostTwo(bits);
      state := state.(final := x % 2 == 1, phase := LiteralLen);
    }

    /** Start a block with the static alphabets. */
    method StartStatic(x: nat) returns (j: Jump)
      requires Shape() && bits <= 19
      modifies this`litlenCount, this`distanceCount, this`state, lengths, litlen.Tables(), distanceCodelen.Tables()
      ensures j.Failing? ==> j == Failing(EINVAL) && state == old(state)
      ensures j.Failing? <==> !(Complete(StaticLit()) && Complete(DistanceCode(StaticDist())))
      ensures !j.Failing? ==>
                j == Goto(AtLzhufLitlen) && AtData()
                && state == old(state).(final := x % 2 == 1, phase := Symbol(StaticLit(), DistanceCode(StaticDist())))
    {
      hide Shape, Complete, StaticLit, StaticDist, HasAlphabets, DistanceCode;
      var ok := StaticBlock();
      if !ok {
        return Failing(EINVAL);
      }
      state := state.(final := x % 2 == 1, phase := Symbol(StaticLit(), DistanceCode(StaticDist())));
      return Goto(AtLzhufLitlen);
    }

    /** Start a block of the type that its header names. */
    method StartBlock(in_: Chunk, x: nat) returns (j: Jump, ghost used: nat)
      requires Shape() && in_.Readable() && Buffered() && bits <= 19
      requires in_.data != lengths && in_.data !in litlen.Tables() + distanceCodelen.Tables()
      modifies this`accumulator, this`rotalumucca, this`bits, this`buffered, this`litlenCount, this`distanceCount,
               this`state, lengths, litlen.Tables(), distanceCodelen.Tables()
      ensures Buffered() && state.output == old(state.output) && state.format == old(state.format)
      ensures OnBlockHeader(old(state), x, 0, |old(Pending(in_))|)
              == if j.Failing? then Fail(j.error) else Next(state, used)
      ensures used <= |old(Pending(in_))| && Pending(in_) == old(Pending(in_))[used..]
      ensures j.Failing? ==> state == old(state)
      ensures !j.Failing? ==> state.final == (x % 2 == 1)
      ensures j.Goto? ==> (j == Goto(AtLiteralLen) && state.phase == LiteralLen && bits <= 16 && bits % 8 == 0)
                          || (j == Goto(AtLzhufLitlen) && AtData())
                          || (j == Goto(AtDynamicHeader) && state.phase == DynamicHeader && bits <= 22)
      ensures j.Goto? || j.Failing?
    {
      hide Shape, Mirrored, BytesToBits, Complete, StaticLit, StaticDist, AtData, DistanceCode, OnBlockHeader, Pending,
           Buffered;
      HeaderCases(state, x, |Pending(in_)|);
      used := 0;
      ghost var b0 := Pending(in_);
      assert b0[0..] == b0;
      if x / 2 == 0 {
        used := StartStored(in_, x);
        return Goto(AtLiteralLen), used;
      } else if x / 2 == 1 {
        j := StartStatic(x);
        return;
      } else if x / 2 == 2 {
        state := state.(final := x % 2 == 1, phase := DynamicHeader);
        return Goto(AtDynamicHeader), used;
      }
      return Failing(ENOTSUP), used;
    }

    /** Extract and record the header of a block, or note where to resume. */
    method TakeHeader(in_: Chunk) returns (x: int)
      requires Base(in_) && state.phase == BlockHeader && bits <= 22
      modifies this`accumulator, this`rotalumucca, this`bits, this`buffered, this`resume, this`header, in_`offset
      ensures in_.Readable() && Buffered()
      ensures x < 0 ==> Step(state, old(Pending(in_))) == NeedInput && Pending(in_) == old(Pending(in_))
      ensures x < 0 ==> Base(in_) && resume == AtBlockHeader && in_.offset == in_.len && bits <= 22
      ensures x >= 0 ==> 3 <= |old(Pending(in_))| && Pending(in_) == old(Pending(in_))[3..]
      ensures x >= 0 ==> Step(state, old(Pending(in_))) == OnBlockHeader(state, x, 3, |Pending(in_)|)
      ensures x >= 0 ==> header == x && bits <= 19 && resume == old(resume)
    {
      hide Shape, Step, Mirrored, BytesToBits, Pow2, OnBlockHeader, Pending, Buffered, OnField, FieldBits;
      HeaderField(state, |Pending(in_)| - 3);
      x := TakeField(in_, 3, AtBlockHeader);
      if x >= 0 {
        header := x;
      }
    }

    method DoBlockHeader(in_: Chunk) returns (j: Jump, ghost used: nat)
      requires Base(in_) && state.phase == BlockHeader && bits <= 22
      requires in_.data != lengths && in_.data !in litlen.Tables() + distanceCodelen.Tables()
      modifies this`accumulator, this`rotalumucca, this`bits, this`buffered, this`resume, this`header, this`litlenCount,
               this`distanceCount, this`state, in_`offset, lengths, litlen.Tables(), distanceCodelen.Tables()
      ensures !j.Blocked? ==> resume == old(resume)
      ensures in_.Readable() && Took(old(state), old(Pending(in_)), j, used, state, Pending(in_))
      ensures state.output == old(state.output)
      ensures !j.Failing? ==> Base(in_)
      ensures j.Goto? ==> (j == Goto(AtLiteralLen) && state.phase == LiteralLen && bits <= 16 && bits % 8 == 0)
                          || (j == Goto(AtLzhufLitlen) && AtData())
                          || (j == Goto(AtDynamicHeader) && state.phase == DynamicHeader && bits <= 22)
      ensures j.Blocked? ==> resume == AtBlockHeader && bits <= 22 && in_.offset == in_.len
      ensures !j.Ended?
    {
      hide Shape, Step, Mirrored, BytesToBits, OnBlockHeader, AtData, Alphabet.Shaped, Pending, Buffered, Took;
      used := 3;
      ghost var s0, b0 := state, Pending(in_);
      var x := TakeHeader(in_);
      if x < 0 {
        TookBlocked(s0, b0);
        return Blocked, used;
      }
      ghost var skipped;
      j, skipped := StartBlock(in_, x);
      used := 3 + skipped;
      TookHeader(s0, b0, x, skipped, j, state, Pending(in_));
    }

    // ----- Dynamic blocks

    /** The lengths of the code length codes read so far are stored by symbol. */
    ghost predicate AtCodelen()
      reads this, lengths
    {
      Shape() && bits <= 22 && state.phase.CodeLengthCodes?
      && state.phase == CodeLengthCodes(litlenCount, distanceCount, lengthTarget, state.phase.sent)
      && |state.phase.sent| == lengthIndex <= lengthTarget <= 19 && Counts()
      && forall i :: 0 <= i < 19 ==> Length(lengths[..], i) == SentLength(state.phase.sent, i)
    }

    method DoDynamicHeader(in_: Chunk) returns (j: Jump, ghost used: nat)
      requires Base(in_) && state.phase == DynamicHeader && bits <= 22 && in_.data != lengths
      modifies this, in_`offset, lengths
      ensures !j.Blocked? ==> resume == old(resume)
      ensures Base(in_) && Took(old(state), old(Pending(in_)), j, used, state, Pending(in_))
      ensures background == old(background) && state.output == old(state.output)
      ensures j.Goto? ==> j == Goto(AtDynamicCodelen) && AtCodelen()
      ensures j.Blocked? ==> resume == AtDynamicHeader && bits <= 22 && in_.offset == in_.len
      ensures j.Goto? || j.Blocked?
    {
      hide Shape, Step, Reverses, Mirrored, BytesToBits, Lsb, Pow2, AtCodelen, Alphabet.Shaped;
      used := 14;
      var x := TakeField(in_, 14, AtDynamicHeader);
      if x < 0 {
        return Blocked, used;
      }
      PrepareCodelen(x);
      return Goto(AtDynamicCodelen), used;
    }

    /** Take apart the header of a dynamic block and prepare for the code length code lengths. */
    method PrepareCodelen(x: nat)
      requires Shape() && bits <= 22
      modifies this`litlenCount, this`distanceCount, this`lengthIndex, this`lengthTarget, this`state, lengths
      ensures OnDynamicHeader(old(state), x, 14) == Next(state, 14)
      ensures AtCodelen()
    {
      hide Length, Alphabet.Shaped, Reverses;
      litlenCount := x % 32 + 257;
      distanceCount := (x / 32) % 32 + 1;
      lengthIndex := 0;
      lengthTarget := (x / 1024) % 16 + 4;
      ClearLengths();
      state := state.(phase := CodeLengthCodes(litlenCount, distanceCount, lengthTarget, []));
    }

    method ClearLengths()
      requires Shape()
      modifies lengths
      ensures forall i :: 0 <= i < 160 ==> lengths[i] == 0
      ensures forall i :: 0 <= i < 320 ==> Length(lengths[..], i) == 0
    {
      for i := 0 to 160
        invariant forall k :: 0 <= k < i ==> lengths[k] == 0
      {
        lengths[i] := 0;
      }
    }

    /** Store a code length whose place is still zero. */
    method SetLength(index: nat, n: nat)
      requires Shape() && index < 320 && n <= 15 && Length(lengths[..], index) == 0
      modifies lengths
      ensures Length(lengths[..], index) == n
      ensures forall i :: 0 <= i < 320 && i != index ==> Length(lengths[..], i) == Length(old(lengths[..]), i)
    {
      hide Or, Length;
      StoreLength(lengths[..], index, n);
      lengths[index / 2] := Or(lengths[index / 2], n * (if index % 2 == 0 then 1 else 16));
      assert lengths[..] == old(lengths[..])[index / 2 := lengths[index / 2]];
    }

    /** Store one code length code length in the place of its symbol. */
    method StoreCodelen(x: nat)
      requires AtCodelen() && lengthIndex < lengthTarget && x < 8
      modifies this`lengthIndex, this`state, lengths
      ensures AtCodelen() && OnCodeLengthCode(old(state), x, 3) == Next(state, 3)
      ensures lengthIndex == old(lengthIndex) + 1
    {
      hide Length, Reverses, Alphabet.Shaped;
      CodeLengthPlaces();
      var index := CODE_LENGTH_ORDER[lengthIndex];
      ghost var sent := state.phase.sent;
      lengthIndex := lengthIndex + 1;
      SetLength(index, x);
      state := state.(phase := CodeLengthCodes(litlenCount, distanceCount, lengthTarget, sent + [x]));
    }

    /** Read the code length code lengths that are still missing. */
    method DoDynamicCodelen(in_: Chunk) returns (blocked: bool)
      requires Base(in_) && AtCodelen() && in_.data != lengths
      modifies this, in_`offset, lengths
      ensures !blocked ==> resume == old(resume)
      ensures Base(in_) && AtCodelen() && background == old(background) && state.output == old(state.output)
      ensures Run(old(state), old(Pending(in_))) == Run(state, Pending(in_))
      ensures |Pending(in_)| <= |old(Pending(in_))|
      ensures blocked ==> resume == AtDynamicCodelen && Step(state, Pending(in_)) == NeedInput
                          && in_.offset == in_.len
      ensures !blocked ==> lengthIndex == lengthTarget
    {
      hide Shape, Run, Step, Reverses, Mirrored, BytesToBits, Lsb, Length, Alphabet.Shaped, OnCodeLengthCode;
      while lengthIndex < lengthTarget
        invariant Base(in_) && AtCodelen() && background == old(background) && state.output == old(state.output)
        invariant Run(old(state), old(Pending(in_))) == Run(state, Pending(in_))
        invariant |Pending(in_)| <= |old(Pending(in_))| && resume == old(resume)
        decreases lengthTarget - lengthIndex
      {
        ghost var s0, b0 := state, Pending(in_);
        var x := TakeField(in_, 3, AtDynamicCodelen);
        if x < 0 {
          return true;
        }
        StoreCodelen(x);
        CodeLengthCodeKeeps(s0, x, state);
        RunNext(s0, b0, state, 3);
      }
      return false;
    }

    /** The first `lengthIndex` code lengths have been stored, and the rest are still zero. */
    ghost predicate Recorded(lens: seq<nat>)
      requires lengths.Length == 160
      reads this`lengthIndex, lengths
    {
      |lens| == lengthIndex <= 320
      && forall i :: 0 <= i < 320 ==> Length(lengths[..], i) == if i < lengthIndex then lens[i] else 0
    }

    /** Code lengths are being read with the code length alphabet. */
    ghost predicate Reading(codes: seq<nat>, lens: seq<nat>)
      reads this, lengths, distanceCodelen.Tables()
    {
      Shape() && bits <= 22 && |codes| == 19 && distanceCodelen.Represents(codes)
      && Recorded(lens) && Counts()
      && lengthIndex < lengthTarget == litlenCount + distanceCount && length <= 15
    }

    ghost predicate AtLengths()
      reads this, lengths, distanceCodelen.Tables()
    {
      state.phase.CodeLengths?
      && state.phase == CodeLengths(litlenCount, distanceCount, state.phase.codes, state.phase.lens, length)
      && Reading(state.phase.codes, state.phase.lens)
    }

    ghost predicate AtLengthsExtra()
      reads this, lengths, distanceCodelen.Tables()
    {
      state.phase.CodeLengthsExtra?
      && state.phase == CodeLengthsExtra(litlenCount, distanceCount, state.phase.codes, state.phase.lens,
                                         length, dupLen, extraBits)
      && Reading(state.phase.codes, state.phase.lens) && extraBits <= 7
    }

    /** Generate the code length alphabet once all its lengths are known. */
    method DoCodelenDone() returns (j: Jump)
      requires AtCodelen() && lengthIndex == lengthTarget
      modifies this`lengthIndex, this`lengthTarget, this`length, this`state, lengths, distanceCodelen.Tables()
      ensures OnCodeLengthCode(old(state), 0, 0) == if j.Failing? then Fail(j.error) else Next(state, 0)
      ensures j.Failing? ==> state == old(state)
      ensures state == old(state).(phase := state.phase)
      ensures j.Goto? ==> j == Goto(AtDynamicLitlenDistance) && AtLengths()
      ensures j.Goto? || j.Failing?
    {
      hide Length, Reverses, Complete, Alphabet.Represents;
      ghost var codes := Unscramble(state.phase.sent, 19);
      assert LengthsAt(lengths[..], 19, 0) == codes;
      var ok := distanceCodelen.Build(lengths, 19, 0);
      if !ok {
        return Failing(EINVAL);
      }
      ClearLengths();
      lengthIndex := 0;
      lengthTarget := litlenCount + distanceCount;
      length := 0;
      state := state.(phase := CodeLengths(litlenCount, distanceCount, codes, [], 0));
      return Goto(AtDynamicLitlenDistance);
    }

    /** Decode the symbol that the current phase starts with, or note where to resume. */
    method TakeSymbol(in_: Chunk, alphabet: Alphabet, ghost lens: seq<nat>, l: Label) returns (code: int)
      requires Shape() && in_.Readable() && Buffered() && bits <= 22
      requires IsCoded(state.phase) && CodeOf(state.phase) == lens && alphabet.Represents(lens)
      modifies this`accumulator, this`rotalumucca, this`bits, this`buffered, this`resume, in_`offset
      ensures code >= 0 ==> resume == old(resume)
      ensures in_.Readable() && Buffered() && bits <= 22
      ensures code < 0 ==> Step(state, old(Pending(in_))) == NeedInput && Pending(in_) == old(Pending(in_))
      ensures code < 0 ==> resume == l && in_.offset == in_.len
      ensures code >= 0 ==> code < |lens| && |Pending(in_)| < |old(Pending(in_))|
      ensures code >= 0 ==>
                var used := |old(Pending(in_))| - |Pending(in_)|;
                Pending(in_) == old(Pending(in_))[used..]
                && Step(state, old(Pending(in_))) == OnSymbol(state, code, used, |Pending(in_)|)
    {
      hide OnSymbol, OnField, Reverses, Mirrored, BytesToBits, Alphabet.Represents, Huffman.Decode;
      code := Decode(in_, alphabet, lens);
      if code < 0 {
        resume := l;
      }
    }

    method DoDynamicLitlenDistance(in_: Chunk) returns (j: Jump, ghost used: nat)
      requires Base(in_) && AtLengths()
      modifies this, in_`offset
      ensures !j.Blocked? ==> resume == old(resume)
      ensures Base(in_) && Took(old(state), old(Pending(in_)), j, used, state, Pending(in_))
      ensures background == old(background) && state.output == old(state.output)
      ensures j.Goto? ==> j == Goto(AtDynamicLitlenDistanceExtra) && AtLengthsExtra()
      ensures j.Blocked? ==> resume == AtDynamicLitlenDistance && AtLengths() && in_.offset == in_.len
      ensures j.Goto? || j.Blocked?
    {
      hide Step, OnSymbol, Reverses, Mirrored, BytesToBits, Recorded, Alphabet.Represents, Alphabet.Shaped;
      ghost var b0 := Pending(in_);
      var code := TakeSymbol(in_, distanceCodelen, state.phase.codes, AtDynamicLitlenDistance);
      if code < 0 {
        return Blocked, 0;
      }
      used := |b0| - |Pending(in_)|;
      PrepareRepeat(code, used, |Pending(in_)|);
      return Goto(AtDynamicLitlenDistanceExtra), used;
    }

    /** Prepare for the extra bits of a code length symbol. */
    method PrepareRepeat(code: nat, ghost used: nat, ghost left: nat)
      requires AtLengths() && code < 19
      modifies this`length, this`extraBits, this`dupLen, this`state
      ensures AtLengthsExtra() && OnSymbol(old(state), code, used, left) == Next(state, used)
      ensures state == old(state).(phase := state.phase)
    {
      hide Reverses, Recorded, Alphabet.Represents, Alphabet.Shaped;
      if code < 16 {
        length, extraBits, dupLen := code, 0, 1;
      } else {
        var index := code - 16;
        dupLen := [3, 3, 11][index];
        extraBits := [2, 3, 7][index];
        if index != 0 {
          length := 0;
        }
      }
      state := state.(phase := CodeLengthsExtra(litlenCount, distanceCount, state.phase.codes, state.phase.lens,
                                                length, dupLen, extraBits));
    }

    /** Store the current length several times, or as often as there is room. */
    method StoreRepeated(times: nat, ghost lens: seq<nat>)
      requires Shape() && Recorded(lens) && lengthIndex <= lengthTarget <= 320 && length <= 15
      modifies this`lengthIndex, lengths
      ensures lengthIndex <= lengthTarget
      ensures Recorded(lens + Repeat(length, Min(times, lengthTarget - |lens|)))
    {
      hide Length, Reverses, Alphabet.Shaped;
      var dupLen := times;
      while lengthIndex < lengthTarget && dupLen > 0
        invariant |lens| <= lengthIndex <= lengthTarget && lengthIndex - |lens| == times - dupLen
        invariant Recorded(lens + Repeat(length, times - dupLen))
      {
        SetLength(lengthIndex, length);
        lengthIndex, dupLen := lengthIndex + 1, dupLen - 1;
      }
    }

    /** Store code lengths. */
    method FinishRepeat(x: nat) returns (j: Jump)
      requires AtLengthsExtra()
      modifies this`lengthIndex, this`state, lengths, litlen.Tables(), distanceCodelen.Tables()
      ensures OnRepeat(old(state), x, 0) == if j.Failing? then Fail(j.error) else Next(state, 0)
      ensures j.Failing? ==> state == old(state)
      ensures state == old(state).(phase := state.phase)
      ensures j.Goto? ==> (j == Goto(AtDynamicLitlenDistance) && AtLengths()) || (j == Goto(AtLzhufLitlen) && AtData())
      ensures j.Goto? || j.Failing?
    {
      hide Length, Reverses, Complete, Alphabet.Represents, AtData, AtLengths, Alphabet.Shaped;
      StoreRepeated(dupLen + x, state.phase.lens);
      j := ContinueOrConstruct(state.phase.codes, Repeated(state.phase, x));
    }

    method ConstructRecorded(ghost lens: seq<nat>) returns (ok: bool)
      requires Shape() && Counts() && Recorded(lens) && |lens| == litlenCount + distanceCount
      modifies lengths, litlen.Tables(), distanceCodelen.Tables()
      ensures ok <==> Complete(lens[..litlenCount]) && Complete(DistanceCode(lens[litlenCount..]))
      ensures ok ==> HasAlphabets(lens[..litlenCount], DistanceCode(lens[litlenCount..]))
    {
      hide Length, Reverses, Complete, HasAlphabets, Alphabet.Shaped;
      RecordedLengths(lengths[..], lens, litlenCount);
      ok := ConstructAlphabets();
    }

    /** Read on, or construct the alphabets when the code lengths are all known. */
    method ContinueOrConstruct(ghost codes: seq<nat>, ghost lens: seq<nat>) returns (j: Jump)
      requires Shape() && bits <= 22 && |codes| == 19 && distanceCodelen.Represents(codes)
      requires Recorded(lens) && Counts()
      requires lengthIndex <= lengthTarget == litlenCount + distanceCount && length <= 15
      modifies this`state, lengths, litlen.Tables(), distanceCodelen.Tables()
      ensures (if |lens| < litlenCount + distanceCount
               then Next(old(state).(phase := CodeLengths(litlenCount, distanceCount, codes, lens, length)), 0)
               else Construct(old(state), lens[..litlenCount], lens[litlenCount..], 0))
              == if j.Failing? then Fail(j.error) else Next(state, 0)
      ensures j.Failing? ==> state == old(state)
      ensures state == old(state).(phase := state.phase)
      ensures j.Goto? ==> (j == Goto(AtDynamicLitlenDistance) && AtLengths()) || (j == Goto(AtLzhufLitlen) && AtData())
      ensures j.Goto? || j.Failing?
    {
      hide Length, LengthsAt, Reverses, Complete, Alphabet.Represents, HasAlphabets, Alphabet.Shaped;
      if lengthIndex < lengthTarget {
        state := state.(phase := CodeLengths(litlenCount, distanceCount, codes, lens, length));
        return Goto(AtDynamicLitlenDistance);
      }
      var ok := ConstructRecorded(lens);
      if !ok {
        return Failing(EINVAL);
      }
      state := state.(phase := Symbol(lens[..litlenCount], DistanceCode(lens[litlenCount..])));
      return Goto(AtLzhufLitlen);
    }

    method DoDynamicLitlenDistanceExtra(in_: Chunk) returns (j: Jump, ghost used: nat)
      requires Base(in_) && AtLengthsExtra()
      requires in_.data != lengths && in_.data !in litlen.Tables() + distanceCodelen.Tables()
      modifies this`accumulator, this`rotalumucca, this`bits, this`buffered, this`resume, this`lengthIndex, this`state,
               in_`offset,
               lengths, litlen.Tables(), distanceCodelen.Tables()
      ensures !j.Blocked? ==> resume == old(resume)
      ensures Base(in_) && Took(old(state), old(Pending(in_)), j, used, state, Pending(in_))
      ensures state.output == old(state.output)
      ensures j.Goto? ==> (j == Goto(AtDynamicLitlenDistance) && AtLengths()) || (j == Goto(AtLzhufLitlen) && AtData())
      ensures j.Blocked? ==> resume == AtDynamicLitlenDistanceExtra && AtLengthsExtra() && in_.offset == in_.len
      ensures !j.Ended?
    {
      hide Step, OnRepeat, Reverses, Mirrored, BytesToBits, Lsb, Pow2, Recorded, Alphabet.Represents, Alphabet.Shaped,
           AtData, AtLengths, OnField, FieldBits, Pending, Buffered;
      used := extraBits;
      RepeatField(state, |Pending(in_)| - extraBits);
      var x := TakeField(in_, extraBits, AtDynamicLitlenDistanceExtra);
      if x < 0 {
        return Blocked, used;
      }
      RepeatOffset(state, x, used);
      j := FinishRepeat(x);
    }

    // ----- Compressed data

    method DoLzhufLitlenExtra(in_: Chunk) returns (j: Jump, ghost used: nat)
      requires Base(in_) && AtLengthExtra()
      modifies this, in_`offset
      ensures !j.Blocked? ==> resume == old(resume)
      ensures Base(in_) && Took(old(state), old(Pending(in_)), j, used, state, Pending(in_))
      ensures background == old(background) && state.output == old(state.output)
      ensures j.Goto? ==> j == Goto(AtLzhufDistance) && AtDistance()
      ensures j.Blocked? ==> resume == AtLzhufLitlenExtra && AtLengthExtra() && in_.offset == in_.len
      ensures j.Goto? || j.Blocked?
    {
      hide Step, Reverses, Mirrored, BytesToBits, Lsb, Pow2, HasAlphabets, Alphabet.Shaped;
      used := extraBits;
      var x := TakeField(in_, extraBits, AtLzhufLitlenExtra);
      if x < 0 {
        return Blocked, used;
      }
      dupLen := dupLen + x;
      state := state.(phase := Distance(state.phase.lit, state.phase.dist, dupLen));
      return Goto(AtLzhufDistance), used;
    }

    ghost predicate AtLengthExtra()
      reads this, litlen.Tables(), distanceCodelen.Tables()
    {
      state.phase.LengthExtra? && HasAlphabets(state.phase.lit, state.phase.dist) && bits <= 22
      && state.phase.base == dupLen && state.phase.extra == extraBits <= 5
    }

    ghost predicate AtDistance()
      reads this, litlen.Tables(), distanceCodelen.Tables()
    {
      state.phase.Distance? && HasAlphabets(state.phase.lit, state.phase.dist) && bits <= 22
      && state.phase.len == dupLen
    }

    ghost predicate AtDistanceExtra()
      reads this, litlen.Tables(), distanceCodelen.Tables()
    {
      state.phase.DistanceExtra? && HasAlphabets(state.phase.lit, state.phase.dist) && bits <= 22
      && state.phase.len == dupLen && state.phase.base == dupDistance && state.phase.extra == extraBits <= 14
    }

    method DoLzhufDistance(in_: Chunk) returns (j: Jump, ghost used: nat)
      requires Base(in_) && AtDistance() && tables.distanceBase == DISTANCE_BASE
      modifies this`accumulator, this`rotalumucca, this`bits, this`buffered, this`resume, this`extraBits,
               this`dupDistance, this`state,
               in_`offset
      ensures !j.Blocked? ==> resume == old(resume)
      ensures Base(in_) && Took(old(state), old(Pending(in_)), j, used, state, Pending(in_))
      ensures state.output == old(state.output)
      ensures j.Goto? ==> j == Goto(AtLzhufDistanceExtra) && AtDistanceExtra()
      ensures j.Blocked? ==> resume == AtLzhufDistance && AtDistance() && in_.offset == in_.len
      ensures j.Goto? || j.Blocked?
    {
      hide Step, Reverses, Mirrored, BytesToBits, Alphabet.Represents, Alphabet.Shaped, DistanceBase, DistanceExtraBits,
           OnSymbol, Pending, Buffered;
      ghost var b0 := Pending(in_);
      var code := TakeSymbol(in_, distanceCodelen, state.phase.dist, AtLzhufDistance);
      if code < 0 {
        return Blocked, 0;
      }
      DistanceFields(code);
      DistanceSymbol(state, code, |b0| - |Pending(in_)|, |Pending(in_)|);
      var extra := code / 2;
      if extra != 0 {
        extra := extra - 1;
      }
      extraBits := extra;
      dupDistance := tables.distanceBase[code];
      state := state.(phase := DistanceExtra(state.phase.lit, state.phase.dist, dupLen, dupDistance, extraBits));
      return Goto(AtLzhufDistanceExtra), |b0| - |Pending(in_)|;
    }

    method DoLzhufDistanceExtra(in_: Chunk, out: Chunk) returns (j: Jump, ghost used: nat)
      requires Base(in_) && AtDistanceExtra() && Apart(in_, out) && out.Contains(background, state.output)
      modifies this`accumulator, this`rotalumucca, this`bits, this`buffered, this`resume, this`state, in_`offset,
               out`offset, out.data
      ensures !j.Blocked? ==> resume == old(resume)
      ensures Base(in_) && Took(old(state), old(Pending(in_)), j, used, state, Pending(in_))
      ensures background == old(background) && out.Contains(background, state.output)
      ensures j.Goto? ==> j == Goto(AtLzhufLitlen) && AtData()
      ensures j.Blocked? ==> resume == AtLzhufDistanceExtra && AtDistanceExtra() && in_.offset == in_.len
      ensures !j.Ended?
    {
      hide LengthsAt, Step, Reverses, Mirrored, BytesToBits, Lsb, Pow2, HasAlphabets, Alphabet.Shaped, Holds, Duplicate,
           Pending, Buffered, OnField, FieldBits;
      used := extraBits;
      DistanceField(state, |Pending(in_)| - extraBits);
      var x := TakeField(in_, extraBits, AtLzhufDistanceExtra);
      if x < 0 {
        return Blocked, used;
      }
      var distance := dupDistance + x;
      if distance > out.offset {
        return Failing(EINVAL), used;
      }
      EmitDuplicate(out, distance, dupLen, background, state.output);
      state := state.(phase := Symbol(state.phase.lit, state.phase.dist),
                      output := Duplicate(state.output, distance, dupLen));
      return Goto(AtLzhufLitlen), used;
    }

    /** Prepare for the extra bits of a length symbol. */
    method PrepareLength(code: nat, ghost used: nat, ghost left: nat)
      requires Shape() && AtData() && code > 256 && tables.litlenBase == LENGTH_BASE
      modifies this`extraBits, this`dupLen, this`state
      ensures AtLengthExtra() && OnSymbol(old(state), code, used, left) == Next(state, used)
      ensures state == old(state).(phase := state.phase)
    {
      hide Reverses, HasAlphabets, Alphabet.Shaped, LengthBase, LengthExtraBits;
      LengthFields(code);
      var extra := code - 257;
      if extra < 28 {
        var n := extra / 4;
        if n != 0 {
          n := n - 1;
        }
        extraBits := n;
        dupLen := tables.litlenBase[extra];
      } else {
        extraBits := 0;
        dupLen := 258;
      }
      state := state.(phase := LengthExtra(state.phase.lit, state.phase.dist, dupLen, extraBits));
    }

    method DoLzhufLitlen(in_: Chunk, out: Chunk) returns (j: Jump, ghost used: nat)
      requires Base(in_) && AtData() && Apart(in_, out) && out.Contains(background, state.output)
      requires tables.litlenBase == LENGTH_BASE
      modifies this, in_`offset, out`offset, out.data
      ensures !j.Blocked? ==> resume == old(resume)
      ensures Base(in_) && Took(old(state), old(Pending(in_)), j, used, state, Pending(in_))
      ensures background == old(background) && out.Contains(background, state.output)
      ensures j.Goto? ==> AfterSymbol(j.target)
      ensures j.Blocked? ==> resume == AtLzhufLitlen && AtData() && in_.offset == in_.len
      ensures j.Ended? ==> bits <= 22
      ensures !j.Failing?
    {
      hide Chunk.Contains, Step, OnSymbol, Reverses, Mirrored, BytesToBits, HasAlphabets, Alphabet.Shaped, AfterSymbol;
      ghost var b0 := Pending(in_);
      var code := TakeLitlen(in_);
      if code < 0 {
        return Blocked, 0;
      }
      ghost var n := |b0| - |Pending(in_)|;
      j, used := UseLitlen(in_, out, code, n);
      assert j.Goto? ==> b0[n..][used - n..] == b0[used..];
    }

    /** What may follow a literal/length symbol. */
    ghost predicate AfterSymbol(l: Label)
      reads this, litlen.Tables(), distanceCodelen.Tables()
    {
      match l
      case AtLzhufLitlen => AtData()
      case AtLzhufLitlenExtra => AtLengthExtra()
      case AtBlockHeader => state.phase == BlockHeader && bits <= 22
      case AtZlibAdler32 => state.phase == Adler32 && format == Zlib && bits <= 32 && bits % 8 == 0
      case _ => false
    }

    /** Handle a literal/length symbol of `n` bits according to its type. */
    method UseLitlen(in_: Chunk, out: Chunk, code: nat, ghost n: nat) returns (j: Jump, ghost used: nat)
      requires Base(in_) && AtData() && Apart(in_, out) && out.Contains(background, state.output)
      requires tables.litlenBase == LENGTH_BASE
      modifies this`accumulator, this`rotalumucca, this`bits, this`buffered, this`extraBits, this`dupLen, this`state,
               out`offset, out.data
      ensures Base(in_) && out.Contains(background, state.output)
      ensures OnSymbol(old(state), code, n, |old(Pending(in_))|)
              == if j.Ended? then Done(|Pending(in_)|) else Next(state, used)
      ensures j.Goto? ==> n <= used <= n + |old(Pending(in_))| && Pending(in_) == old(Pending(in_))[used - n..]
      ensures j.Ended? ==> state == old(state) && Pending(in_) == old(Pending(in_)) && bits <= 22
      ensures j.Goto? ==> AfterSymbol(j.target)
      ensures j.Goto? || j.Ended?
    {
      hide Chunk.Contains, HasAlphabets, Alphabet.Shaped, Reverses, Mirrored, BytesToBits, LengthBase, LengthExtraBits,
           BlockDone, OnSymbol, Pending, Buffered;
      used := n;
      LitlenSymbol(state, code, n, |Pending(in_)|);
      if code < 256 {
        EmitByte(out, code, background, state.output);
        state := state.(output := state.output + [Byte(code)]);
        return Goto(AtLzhufLitlen), used;
      } else if code == 256 {
        j, used := DoBlockDone(in_, n);
        return;
      }
      PrepareLength(code, n, |Pending(in_)|);
      return Goto(AtLzhufLitlenExtra), used;
    }

    method TakeLitlen(in_: Chunk) returns (code: int)
      requires Base(in_) && AtData()
      modifies this`accumulator, this`rotalumucca, this`bits, this`buffered, this`resume, in_`offset
      ensures code >= 0 ==> resume == old(resume)
      ensures Base(in_) && AtData()
      ensures code < 0 ==> Step(state, old(Pending(in_))) == NeedInput && Pending(in_) == old(Pending(in_))
      ensures code < 0 ==> resume == AtLzhufLitlen && in_.offset == in_.len
      ensures code >= 0 ==> |Pending(in_)| < |old(Pending(in_))|
      ensures code >= 0 ==>
                var used := |old(Pending(in_))| - |Pending(in_)|;
                Pending(in_) == old(Pending(in_))[used..]
                && Step(state, old(Pending(in_))) == OnSymbol(state, code, used, |Pending(in_)|)
    {
      hide Step, OnSymbol, Reverses, Mirrored, BytesToBits, Alphabet.Represents, Alphabet.Shaped;
      code := TakeSymbol(in_, litlen, state.phase.lit, AtLzhufLitlen);
    }

    // ----- The whole decompressor

    /** What the fields must be for the code at a label. */
    ghost predicate PhaseAt(l: Label)
      reads this, lengths, litlen.Tables(), distanceCodelen.Tables()
    {
      match l
      case AtStart => EndRoom()
      case AtZlibHeader => state.phase == ZlibHeader && bits <= 32
      case AtBlockHeader => state.phase == BlockHeader && bits <= 22
      case AtLiteralLen => state.phase == LiteralLen && bits <= 16 && bits % 8 == 0
      case AtLiteralNlen => state.phase == LiteralNlen(remaining) && bits <= 16 && bits % 8 == 0
      case AtLiteralData => state.phase == LiteralData(remaining) && bits == 0
      case AtDynamicHeader => state.phase == DynamicHeader && bits <= 22
      case AtDynamicCodelen => AtCodelen()
      case AtDynamicLitlenDistance => AtLengths()
      case AtDynamicLitlenDistanceExtra => AtLengthsExtra()
      case AtLzhufLitlen => AtData()
      case AtLzhufLitlenExtra => AtLengthExtra()
      case AtLzhufDistance => AtDistance()
      case AtLzhufDistanceExtra => AtDistanceExtra()
      case AtZlibAdler32 => state.phase == Adler32 && format == Zlib && bits <= 32 && bits % 8 == 0
    }

    /** Everything that must hold for the code at a label to run. */
    ghost predicate Running(in_: Chunk, out: Chunk, l: Label)
      reads this, in_, out, out.data, lengths, litlen.Tables(), distanceCodelen.Tables()
    {
      l != AtStart && Base(in_) && PhaseAt(l) && Apart(in_, out) && Correct(tables)
      && out.Contains(background, state.output)
    }

    method JumpHeader(in_: Chunk, out: Chunk, l: Label) returns (j: Jump)
      requires Running(in_, out, l)
      requires l in {AtZlibHeader, AtBlockHeader}
      modifies this, in_`offset, lengths, litlen.Tables(), distanceCodelen.Tables()
      ensures !j.Blocked? ==> resume == old(resume)
      ensures in_.Readable() && out.Contains(background, state.output) && background == old(background)
      ensures Refines(old(state), old(Pending(in_)), j, state, Pending(in_))
      ensures j.Goto? ==> Running(in_, out, j.target)
      ensures j.Blocked? ==> Running(in_, out, resume) && in_.offset == in_.len
      ensures j.Ended? ==> Buffered() && EndRoom()
    {
      hide Step, Run, Shape, Reverses, Mirrored, BytesToBits, Chunk.Contains, AtData, AtCodelen, AtLengths,
           AtLengthsExtra, AtLengthExtra, AtDistance, AtDistanceExtra, Correct, Refines;
      ghost var s0, b0 := state, Pending(in_);
      ghost var used;
      match l {
        case AtZlibHeader => j, used := DoZlibHeader(in_);
        case AtBlockHeader => j, used := DoBlockHeader(in_);
      }
      TookRefines(s0, b0, j, used, state, Pending(in_));
    }

    method JumpField(in_: Chunk, out: Chunk, l: Label) returns (j: Jump)
      requires Running(in_, out, l)
      requires l in {AtLiteralLen, AtLiteralNlen, AtZlibAdler32}
      modifies this, in_`offset
      ensures !j.Blocked? ==> resume == old(resume)
      ensures in_.Readable() && out.Contains(background, state.output) && background == old(background)
      ensures Refines(old(state), old(Pending(in_)), j, state, Pending(in_))
      ensures j.Goto? ==> Running(in_, out, j.target)
      ensures j.Blocked? ==> Running(in_, out, resume) && in_.offset == in_.len
      ensures j.Ended? ==> Buffered() && EndRoom()
    {
      hide Step, Run, Shape, Reverses, Mirrored, BytesToBits, Chunk.Contains, AtData, AtCodelen, AtLengths,
           AtLengthsExtra, AtLengthExtra, AtDistance, AtDistanceExtra, Correct, Refines;
      ghost var s0, b0 := state, Pending(in_);
      ghost var used;
      match l {
        case AtLiteralLen => j, used := DoLiteralLen(in_);
        case AtLiteralNlen => j, used := DoLiteralNlen(in_);
        case AtZlibAdler32 => j, used := DoAdler32(in_);
      }
      TookRefines(s0, b0, j, used, state, Pending(in_));
    }

    method JumpDynamic(in_: Chunk, out: Chunk, l: Label) returns (j: Jump)
      requires Running(in_, out, l)
      requires l in {AtDynamicHeader, AtDynamicLitlenDistance, AtDynamicLitlenDistanceExtra}
      modifies this, in_`offset, lengths, litlen.Tables(), distanceCodelen.Tables()
      ensures !j.Blocked? ==> resume == old(resume)
      ensures in_.Readable() && out.Contains(background, state.output) && background == old(background)
      ensures Refines(old(state), old(Pending(in_)), j, state, Pending(in_))
      ensures j.Goto? ==> Running(in_, out, j.target)
      ensures j.Blocked? ==> Running(in_, out, resume) && in_.offset == in_.len
      ensures !j.Ended?
    {
      hide Step, Run, Shape, Reverses, Mirrored, BytesToBits, Chunk.Contains, AtData, AtCodelen, AtLengths,
           AtLengthsExtra, AtLengthExtra, AtDistance, AtDistanceExtra, Correct, Refines, Pending,
           Buffered;
      ghost var s0, b0 := state, Pending(in_);
      ghost var used;
      match l {
        case AtDynamicHeader => j, used := DoDynamicHeader(in_);
        case AtDynamicLitlenDistance => j, used := DoDynamicLitlenDistance(in_);
        case AtDynamicLitlenDistanceExtra => j, used := DoDynamicLitlenDistanceExtra(in_);
      }
      TookRefines(s0, b0, j, used, state, Pending(in_));
    }

    method JumpOutput(in_: Chunk, out: Chunk, l: Label) returns (j: Jump)
      requires Running(in_, out, l)
      requires l in {AtLzhufLitlen, AtLzhufDistanceExtra}
      modifies this, in_`offset, out`offset, out.data
      ensures !j.Blocked? ==> resume == old(resume)
      ensures in_.Readable() && out.Contains(background, state.output) && background == old(background)
      ensures Refines(old(state), old(Pending(in_)), j, state, Pending(in_))
      ensures j.Goto? ==> Running(in_, out, j.target)
      ensures j.Blocked? ==> Running(in_, out, resume) && in_.offset == in_.len
      ensures j.Ended? ==> Buffered() && EndRoom()
    {
      hide Step, Run, Shape, Reverses, Mirrored, BytesToBits, Chunk.Contains, AtData, AtCodelen, AtLengths,
           AtLengthsExtra, AtLengthExtra, AtDistance, AtDistanceExtra, Refines;
      ghost var s0, b0 := state, Pending(in_);
      ghost var used;
      match l {
        case AtLzhufLitlen => j, used := DoLzhufLitlen(in_, out);
        case AtLzhufDistanceExtra => j, used := DoLzhufDistanceExtra(in_, out);
      }
      TookRefines(s0, b0, j, used, state, Pending(in_));
    }

    method JumpMatch(in_: Chunk, out: Chunk, l: Label) returns (j: Jump)
      requires Running(in_, out, l)
      requires l in {AtLzhufLitlenExtra, AtLzhufDistance}
      modifies this, in_`offset
      ensures !j.Blocked? ==> resume == old(resume)
      ensures in_.Readable() && out.Contains(background, state.output) && background == old(background)
      ensures Refines(old(state), old(Pending(in_)), j, state, Pending(in_))
      ensures j.Goto? ==> Running(in_, out, j.target)
      ensures j.Blocked? ==> Running(in_, out, resume) && in_.offset == in_.len
      ensures j.Ended? ==> Buffered() && EndRoom()
    {
      hide Step, Run, Shape, Reverses, Mirrored, BytesToBits, Chunk.Contains, AtData, AtCodelen, AtLengths,
           AtLengthsExtra, AtLengthExtra, AtDistance, AtDistanceExtra, Refines;
      ghost var s0, b0 := state, Pending(in_);
      ghost var used;
      match l {
        case AtLzhufLitlenExtra => j, used := DoLzhufLitlenExtra(in_);
        case AtLzhufDistance => j, used := DoLzhufDistance(in_);
      }
      TookRefines(s0, b0, j, used, state, Pending(in_));
    }

    method EndLiteral(in_: Chunk) returns (j: Jump)
      requires Base(in_) && state.phase == LiteralData(0) && bits == 0
      modifies this`accumulator, this`rotalumucca, this`bits, this`buffered, this`state
      ensures Base(in_) && state.output == old(state.output)
      ensures Refines(old(state), old(Pending(in_)), j, state, Pending(in_))
      ensures j.Goto? ==> (j == Goto(AtBlockHeader) && state.phase == BlockHeader && bits <= 22)
                          || (j == Goto(AtZlibAdler32) && state.phase == Adler32 && format == Zlib && bits <= 32
                            && bits % 8 == 0)
      ensures j.Ended? ==> bits <= 22
      ensures j.Goto? || j.Ended?
    {
      hide Run, Shape, Reverses, Mirrored, BytesToBits, Refines, Step, BlockDone, Took, Pending, Buffered;
      ghost var s0, b0 := state, Pending(in_);
      ghost var used;
      j, used := DoBlockDone(in_, 0);
      LiteralDone(s0, b0);
      TookDone(s0, b0, j, used, state, Pending(in_));
      TookRefines(s0, b0, j, used, state, Pending(in_));
    }

    /** Literal data, and what follows the block once all of it has been copied. */
    method JumpLiteralData(in_: Chunk, out: Chunk) returns (j: Jump)
      requires Running(in_, out, AtLiteralData)
      modifies this, in_`offset, out`offset, out.data
      ensures !j.Blocked? ==> resume == old(resume)
      ensures in_.Readable() && out.Contains(background, state.output) && background == old(background)
      ensures Refines(old(state), old(Pending(in_)), j, state, Pending(in_))
      ensures j.Goto? ==> Running(in_, out, j.target)
      ensures j.Blocked? ==> Running(in_, out, resume) && in_.offset == in_.len
      ensures j.Ended? ==> Buffered() && EndRoom()
    {
      hide Run, Rank, Shape, Reverses, Mirrored, BytesToBits, Lsb, Pending, Chunk.Contains, Correct, Refines, Step,
           AtData, AtCodelen, AtLengths, AtLengthsExtra, AtLengthExtra, AtDistance, AtDistanceExtra;
      ghost var s0, b0 := state, Pending(in_);
      var blocked := DoLiteralData(in_, out);
      ghost var s1, b1 := state, Pending(in_);
      if blocked {
        BlockedRefines(s0, b0, s1, b1);
        return Blocked;
      }
      j := EndLiteral(in_);
      RefinesAfter(s0, b0, s1, b1, j, state, Pending(in_));
    }

    method JumpCodelen(in_: Chunk, out: Chunk) returns (j: Jump)
      requires Running(in_, out, AtDynamicCodelen)
      modifies this, in_`offset, lengths, distanceCodelen.Tables()
      ensures !j.Blocked? ==> resume == old(resume)
      ensures in_.Readable() && out.Contains(background, state.output) && background == old(background)
      ensures Refines(old(state), old(Pending(in_)), j, state, Pending(in_))
      ensures j.Goto? ==> Running(in_, out, j.target)
      ensures j.Blocked? ==> Running(in_, out, resume) && in_.offset == in_.len
      ensures !j.Ended?
    {
      hide Rank, Run, Reverses, Mirrored, BytesToBits, Lsb, Chunk.Contains, Correct, Refines, Step, AtLengths, Length,
           OnCodeLengthCode;
      ghost var s0, b0 := state, Pending(in_);
      var blocked := DoDynamicCodelen(in_);
      ghost var s1, b1 := state, Pending(in_);
      if blocked {
        BlockedRefines(s0, b0, s1, b1);
        return Blocked;
      }
      j := DoCodelenDone();
      CodelenDone(s1, b1);
      TookRefines(s1, b1, j, 0, state, Pending(in_));
      RefinesAfter(s0, b0, s1, b1, j, state, Pending(in_));
    }

    method JumpAt(in_: Chunk, out: Chunk, l: Label) returns (j: Jump)
      requires Running(in_, out, l)
      modifies this, in_`offset, out`offset, out.data, lengths, litlen.Tables(), distanceCodelen.Tables()
      ensures !j.Blocked? ==> resume == old(resume)
      ensures in_.Readable() && out.Contains(background, state.output) && background == old(background)
      ensures Refines(old(state), old(Pending(in_)), j, state, Pending(in_))
      ensures j.Goto? ==> Running(in_, out, j.target)
      ensures j.Blocked? ==> Running(in_, out, resume) && in_.offset == in_.len
      ensures j.Ended? ==> Buffered() && EndRoom()
    {
      hide Run, Shape, Reverses, Mirrored, BytesToBits, Chunk.Contains, Refines, PhaseAt, Correct;
      if l in {AtZlibHeader, AtBlockHeader} {
        j := JumpHeader(in_, out, l);
      } else if l in {AtLiteralLen, AtLiteralNlen, AtZlibAdler32} {
        j := JumpField(in_, out, l);
      } else if l in {AtDynamicHeader, AtDynamicLitlenDistance, AtDynamicLitlenDistanceExtra} {
        j := JumpDynamic(in_, out, l);
      } else if l == AtLiteralData {
        j := JumpLiteralData(in_, out);
      } else if l == AtDynamicCodelen {
        j := JumpCodelen(in_, out);
      } else if l in {AtLzhufLitlenExtra, AtLzhufDistance} {
        j := JumpMatch(in_, out, l);
      } else {
        j := JumpOutput(in_, out, l);
      }
    }

    /** What a caller must provide: a decompressor that has not failed, and an output buffer that
        is the one it has been writing to. */
    ghost predicate Ready(in_: Chunk, out: Chunk)
      reads this, in_, out, out.data, lengths, litlen.Tables(), distanceCodelen.Tables()
    {
      Shape() && Apart(in_, out) && Correct(tables) && in_.Readable() && Buffered()
      && out.len <= out.data.Length
      && if resume == AtStart then EndRoom() else Running(in_, out, resume)
    }

    /** The transducer state from which a call goes on. */
    ghost function From(out: Chunk): State
      reads this, out
    {
      if resume != AtStart then state
      else State(if format == Zlib then ZlibHeader else BlockHeader, format, header % 2 == 1, Untouched(out.offset))
    }

    /** What the output buffer held before the first call. */
    ghost function Behind(out: Chunk): seq<byte>
      requires out.len <= out.data.Length
      reads this, out.data
    {
      if resume != AtStart then background else out.data[..out.len]
    }

    predicate IsFinished()
      reads this
    {
      resume == AtStart
    }

    /** Inflate as much as the input allows.  The outcome is that of the transducer on all pending
        input: the status, whether decompression has finished, the output buffer and its offset,
        and the state in which the next call resumes.  A failure leaves the resume point alone, so
        what the caller is told then is what it would have been told before the call. */
    method Inflate(in_: Chunk, out: Chunk) returns (rc: Status)
      requires Ready(in_, out)
      modifies this, in_`offset, out`offset, out.data, lengths, litlen.Tables(), distanceCodelen.Tables()
      ensures in_.Readable()
      ensures match Run(old(From(out)), old(Pending(in_)))
              case Waiting(s, b) =>
                rc == Ok && !IsFinished() && Ready(in_, out) && in_.offset == in_.len
                && From(out) == s && Pending(in_) == b
                && Behind(out) == old(Behind(out)) && out.Contains(Behind(out), s.output)
              case Failed(e, output) =>
                rc == Err(e) && IsFinished() == old(IsFinished()) && out.Contains(old(Behind(out)), output)
              case Finished(output, rest) =>
                rc == Ok && IsFinished() && Ready(in_, out) && Pending(in_) == rest
                && out.Contains(old(Behind(out)), output)
    {
      hide Run, Reverses, Mirrored, BytesToBits, Chunk.Contains, Correct, Rank, PhaseAt;
      var l := resume;
      if l == AtStart {
        l := Begin(in_, out);
      }
      ghost var s0, b0 := state, Pending(in_);
      ghost var bg := background;
      while true
        invariant Running(in_, out, l) && background == bg && resume == old(resume)
        invariant Run(s0, b0) == Run(state, Pending(in_))
        decreases |Pending(in_)|, Rank(state.phase)
      {
        var j := JumpAt(in_, out, l);
        match j {
          case Goto(target) => l := target;
          case Blocked => return Ok;
          case Failing(e) => return Err(e);
          case Ended =>
            resume := AtStart;
            return Ok;
        }
      }
    }

    /** Start at the header of the format. */
    method Begin(in_: Chunk, out: Chunk) returns (l: Label)
      requires Ready(in_, out) && resume == AtStart
      modifies this`state, this`background
      ensures Running(in_, out, l) && state == old(From(out)) && background == old(Behind(out))
    {
      hide Run, Reverses, Mirrored, BytesToBits, Correct, Holds;
      state := From(out);
      background := out.data[..out.len];
      HoldsInitially(out.data[..out.len], out.offset);
      l := if format == Zlib then AtZlibHeader else AtBlockHeader;
    }
  }

  /** Going from one transducer state and input to another by a jump is a piece of its run. */
  ghost predicate Refines(s0: State, b0: seq<bool>, j: Jump, s1: State, b1: seq<bool>) {
    match j
    case Goto(_) =>
      Run(s0, b0) == Run(s1, b1)
      && (|b1| < |b0| || (|b1| == |b0| && Rank(s1.phase) < Rank(s0.phase)))
    case Blocked => Run(s0, b0) == Waiting(s1, b1)
    case Failing(e) => Run(s0, b0) == Failed(e, s1.output)
    case Ended => Run(s0, b0) == Finished(s1.output, b1)
  }

  lemma {:induction false} TookRefines(s0: State, b0: seq<bool>, j: Jump, used: nat, s1: State, b1: seq<bool>)
    requires Took(s0, b0, j, used, s1, b1)
    ensures Refines(s0, b0, j, s1, b1)
  {
    hide Step;
    if j.Goto? {
      RunNext(s0, b0, s1, used);
    }
  }

  lemma {:induction false} BlockedRefines(s0: State, b0: seq<bool>, s1: State, b1: seq<bool>)
    requires Run(s0, b0) == Run(s1, b1) && Step(s1, b1) == NeedInput
    ensures Refines(s0, b0, Blocked, s1, b1)
  {
    hide Step;
  }

  /** A jump taken after some input that the same phase has used. */
  lemma {:induction false} RefinesAfter(s0: State, b0: seq<bool>, s1: State, b1: seq<bool>, j: Jump, s2: State,
                                        b2: seq<bool>)
    requires Run(s0, b0) == Run(s1, b1) && |b1| <= |b0|
    requires (s0.phase.LiteralData? && s1.phase.LiteralData?)
             || (s0.phase.CodeLengthCodes? && s1.phase.CodeLengthCodes?)
    requires Refines(s1, b1, j, s2, b2)
    ensures Refines(s0, b0, j, s2, b2)
  {
    hide Step, Run;
  }

  lemma {:induction false} LiteralWaits(s: State, b: seq<bool>)
    requires s.phase.LiteralData? && s.phase.remaining > 0 && |b| < 8
    ensures Step(s, b) == NeedInput
  {
  }

  lemma {:induction false} LiteralDone(s: State, b: seq<bool>)
    requires s.phase == LiteralData(0)
    ensures Step(s, b) == BlockDone(s, 0, |b|)
  {
  }

  lemma {:induction false} CodelenDone(s: State, b: seq<bool>)
    requires s.phase.CodeLengthCodes? && |s.phase.sent| == s.phase.target
    ensures Step(s, b) == OnCodeLengthCode(s, 0, 0)
  {
    assert b[..0] == [];
  }

  lemma {:induction false} LengthFields(code: nat)
    requires code > 256
    ensures |LENGTH_BASE| == 28
    ensures LengthBase(code) == if code < 285 then LENGTH_BASE[code - 257] else 258
    ensures LengthExtraBits(code)
            == (if code >= 285 || (code - 257) / 4 == 0 then 0 else (code - 257) / 4 - 1) <= 5
  {
    if code < 285 {
      LengthTable(code - 257);
    }
  }

  lemma {:induction false} RecordedLengths(packed: seq<byte>, lens: seq<nat>, n: nat)
    requires |packed| == 160 && n <= |lens| <= 320
    requires forall i :: 0 <= i < |lens| ==> Length(packed, i) == lens[i]
    ensures LengthsAt(packed, n, 0) == lens[..n]
    ensures LengthsAt(packed, |lens| - n, n) == lens[n..]
  {
    hide Length, LengthsAt;
  }

  lemma {:induction false} DistanceFields(code: nat)
    requires code < 32
    ensures |DISTANCE_BASE| == 32
    ensures DistanceBase(code) == DISTANCE_BASE[code]
    ensures DistanceExtraBits(code) == (if code / 2 == 0 then 0 else code / 2 - 1) <= 14
  {
    DistanceExtraTable(code);
  }

  lemma {:induction false} RepeatOffset(s: State, x: nat, n: nat)
    requires s.phase.CodeLengthsExtra?
    ensures OnRepeat(s, x, n) ==
            match OnRepeat(s, x, 0) {
              case Next(s', used) => Next(s', n)
              case a => a
            }
  {
    hide Complete;
  }

  lemma {:induction false} CodeLengthCodeKeeps(s: State, x: nat, s': State)
    requires s.phase.CodeLengthCodes? && OnCodeLengthCode(s, x, 3) == Next(s', 3)
    ensures s'.output == s.output && s'.format == s.format && s'.final == s.final
  {
  }

  /** Or-ing a code length into a zero half of a byte stores it there and nowhere else. */
  lemma {:induction false} StoreLength(packed: seq<byte>, index: nat, n: nat)
    requires index / 2 < |packed| && n <= 15 && Length(packed, index) == 0
    ensures Or(packed[index / 2], n * (if index % 2 == 0 then 1 else 16)) < 256
    ensures var packed' := packed[index / 2 := Or(packed[index / 2], n * (if index % 2 == 0 then 1 else 16))];
            && Length(packed', index) == n
            && forall i :: 0 <= i < 2 * |packed| && i != index ==> Length(packed', i) == Length(packed, i)
  {
    hide Or;
    var x := packed[index / 2];
    SetNibble(x, n);
    var y := Or(x, n * (if index % 2 == 0 then 1 else 16));
    assert y == x + n * (if index % 2 == 0 then 1 else 16);
    assert index % 2 == 0 ==> y % 16 == n && y / 16 == x / 16;
    assert index % 2 == 1 ==> y % 16 == x % 16 && y / 16 == n;
    var packed' := packed[index / 2 := y];
    forall i | 0 <= i < 2 * |packed| && i != index ensures Length(packed', i) == Length(packed, i) {
      assert i / 2 == index / 2 ==> i % 2 != index % 2;
    }
  }

  lemma {:induction false} SetNibble(x: byte, n: nat)
    requires n <= 15
    ensures x % 16 == 0 ==> Or(x, n * 1) == x + n
    ensures x / 16 == 0 ==> Or(x, n * 16) == x + n * 16
  {
    hide Or, Pow2;
    Pow2Values();
    if x % 16 == 0 {
      assert x == x / 16 * 16;
      OrCommutes(x, n);
      OrDisjoint(n, x / 16, 4);
    }
    if x / 16 == 0 {
      OrDisjoint(x, n, 4);
    }
  }

  /** Runs of bytes that hold the static code lengths. */
  const STATIC_PATTERNS: seq<(byte, nat)> := [(0x88, 72), (0x99, 56), (0x77, 12), (0x88, 4), (0x55, 16)]

  function StaticByte(i: nat): byte {
    if i < 72 then 0x88 else if i < 128 then 0x99 else if i < 140 then 0x77 else if i < 144 then 0x88 else 0x55
  }

  lemma {:induction false} StaticLengths(packed: seq<byte>)
    requires |packed| == 160 && forall i :: 0 <= i < 160 ==> packed[i] == StaticByte(i)
    ensures LengthsAt(packed, 288, 0) == StaticLit()
    ensures LengthsAt(packed, 32, 288) == StaticDist()
  {
    hide LengthsAt;
    forall i | 0 <= i < 288 ensures LengthsAt(packed, 288, 0)[i] == StaticLit()[i] {
      assert packed[i / 2] == StaticByte(i / 2);
    }
    forall i | 0 <= i < 32 ensures LengthsAt(packed, 32, 288)[i] == StaticDist()[i] {
      assert packed[(288 + i) / 2] == StaticByte((288 + i) / 2);
    }
  }

  lemma {:induction false} UnreadSplit(data: seq<byte>, offset: nat, n: nat, len: nat)
    requires offset + n <= len <= |data|
    ensures BytesToBits(data[offset..len]) == BytesToBits(data[offset..offset + n]) + BytesToBits(data[offset + n..len])
  {
    assert data[offset..len] == data[offset..offset + n] + data[offset + n..len];
    BytesToBitsAppend(data[offset..offset + n], data[offset + n..len]);
  }

  // ----- What a phase does with its field or symbol

  lemma {:induction false} FieldStep(s: State, b: seq<bool>)
    requires !IsCoded(s.phase)
    ensures var n := FieldBits(s.phase);
            Step(s, b) == if |b| < n then NeedInput else OnField(s, Lsb(b[..n]), n, |b| - n)
  {
    hide OnField, FieldBits, Lsb;
  }

  lemma {:induction false} HeaderCases(s: State, x: nat, left: nat)
    ensures var s' := s.(final := x % 2 == 1);
            OnBlockHeader(s, x, 0, left) ==
            if x / 2 == 0 then Next(s'.(phase := LiteralLen), left % 8)
            else if x / 2 == 2 then Next(s'.(phase := DynamicHeader), 0)
            else if x / 2 != 1 then Fail(ENOTSUP)
            else if Complete(StaticLit()) && Complete(DistanceCode(StaticDist())) then
              Next(s'.(phase := Symbol(StaticLit(), DistanceCode(StaticDist()))), 0)
            else Fail(EINVAL)
  {
    hide Complete, StaticLit, StaticDist, DistanceCode;
  }

  lemma {:induction false} DistanceSymbol(s: State, sym: nat, used: nat, left: nat)
    requires s.phase.Distance?
    ensures OnSymbol(s, sym, used, left) ==
            Next(s.(phase := DistanceExtra(s.phase.lit, s.phase.dist, s.phase.len,
                                           DistanceBase(sym), DistanceExtraBits(sym))), used)
  {
    hide DistanceBase, DistanceExtraBits;
  }

  /** The end of a stored block is one step. */
  lemma {:induction false} TookDone(s0: State, b0: seq<bool>, j: Jump, used: nat, s1: State, b1: seq<bool>)
    requires Step(s0, b0) == if j.Ended? then Done(|b1|) else Next(s1, used)
    requires j.Goto? ==> used <= |b0| && b1 == b0[used..]
    requires j.Ended? ==> s1 == s0 && b1 == b0
    requires j.Goto? || j.Ended?
    ensures Took(s0, b0, j, used, s1, b1)
  {
    hide Step;
    assert b0[|b0| - |b0|..] == b0;
  }

  lemma {:induction false} HeaderField(s: State, left: int)
    requires s.phase == BlockHeader
    ensures FieldBits(s.phase) == 3
    ensures left >= 0 ==> forall x: nat :: OnField(s, x, 3, left) == OnBlockHeader(s, x, 3, left)
  {
    hide OnBlockHeader;
  }

  lemma {:induction false} RepeatField(s: State, left: int)
    requires s.phase.CodeLengthsExtra?
    ensures FieldBits(s.phase) == s.phase.extra
    ensures left >= 0 ==> forall x: nat :: OnField(s, x, s.phase.extra, left) == OnRepeat(s, x, s.phase.extra)
  {
    hide OnRepeat;
  }

  lemma {:induction false} DistanceField(s: State, left: int)
    requires s.phase.DistanceExtra?
    ensures FieldBits(s.phase) == s.phase.extra
    ensures left >= 0 ==> forall x: nat :: OnField(s, x, s.phase.extra, left) == OnDistance(s, x, s.phase.extra)
  {
    hide OnDistance;
  }

  lemma {:induction false} LitlenSymbol(s: State, sym: nat, used: nat, left: nat)
    requires s.phase.Symbol?
    ensures sym < 256 ==> OnSymbol(s, sym, used, left) == Next(s.(output := s.output + [Byte(sym)]), used)
    ensures sym == 256 ==> OnSymbol(s, sym, used, left) == BlockDone(s, used, left)
  {
    hide BlockDone;
  }

  lemma {:induction false} TookBlocked(s: State, b: seq<bool>)
    requires Step(s, b) == NeedInput
    ensures Took(s, b, Blocked, 3, s, b)
  {
    hide Step;
  }

  /** Reading a block header and starting the block is one step. */
  lemma {:induction false} TookHeader(s0: State, b0: seq<bool>, x: nat, skipped: nat, j: Jump, s1: State, b1: seq<bool>)
    requires s0.phase == BlockHeader && |b0| >= 3 + skipped && Step(s0, b0) == OnBlockHeader(s0, x, 3, |b0| - 3)
    requires OnBlockHeader(s0, x, 0, |b0| - 3) == if j.Failing? then Fail(j.error) else Next(s1, skipped)
    requires b1 == b0[3..][skipped..] && (j.Goto? || (j.Failing? && s1 == s0))
    ensures Took(s0, b0, j, 3 + skipped, s1, b1)
  {
    hide Step, OnBlockHeader;
    BlockHeaderOffset(s0, x, 3, |b0| - 3);
    assert b0[3..][skipped..] == b0[3 + skipped..];
  }

  lemma {:induction false} BlockHeaderOffset(s: State, x: nat, n: nat, left: nat)
    ensures OnBlockHeader(s, x, n, left) ==
            match OnBlockHeader(s, x, 0, left) {
              case Next(s', used) => Next(s', n + used)
              case a => a
            }
  {
    hide Complete;
  }

  lemma {:induction false} SplitAppend(a: seq<bool>, b: seq<bool>, n: nat)
    requires n <= |a|
    ensures (a + b)[..n] == a[..n] && (a + b)[n..] == a[n..] + b
  {
  }

  lemma {:induction false} OnlySixteen(n: nat)
    ensures 16 <= n < 24 && n % 8 == 0 ==> n == 16
  {
  }

  lemma {:induction false} WholeBytes(n: nat)
    ensures (n - n % 8) % 8 == 0
  {
  }

  lemma {:induction false} AtMostTwo(n: nat)
    ensures n <= 19 && n % 8 == 0 ==> n <= 16
  {
  }

  lemma {:induction false} Aligned(bits: nat, k: nat)
    ensures (bits + 8 * k) % 8 == bits % 8
  {
  }

  lemma {:induction false} UnreadStep(data: seq<byte>, offset: nat, len: nat)
    requires offset < len <= |data|
    ensures BytesToBits(data[offset..len]) == ToBits(data[offset], 8) + BytesToBits(data[offset + 1..len])
  {
    assert data[offset..len][1..] == data[offset + 1..len];
  }

  lemma {:induction false} NothingMirrored()
    ensures Mirrored(0, 0, [])
  {
    ValuedIsMirrored(0, 0, []);
  }

  /** The top half of the mirrored register is the window that the code ranges are compared with. */
  lemma {:induction false} WindowOf(accumulator: uint32, rotalumucca: uint32, b: seq<bool>)
    requires Mirrored(accumulator, rotalumucca, b)
    ensures Shr(rotalumucca, 16) == Huffman.Window(b)
  {
    hide Mirrored, Msb, Pow2;
    MirroredIsValued(accumulator, rotalumucca, b);
    assert Pow2(16) > 0 && Shr(rotalumucca, 16) == rotalumucca / Pow2(16);
    if |b| <= 16 {
      Pow2Add(16 - |b|, 16);
      MulAssoc(Msb(b), Pow2(16 - |b|), Pow2(16));
      DivModUnique(rotalumucca, Msb(b) * Pow2(16 - |b|), Pow2(16), 0);
    } else {
      MsbLeading(b, 16, 32);
    }
  }
}
