/** The two accumulators of the decompressor.  Input bits are kept twice: `accumulator` holds the
    next bit in its lowest position, `rotalumucca` (its mirror image) in its highest.  Both are
    32-bit registers; `Mirrored` says that they hold the same `bits` bits and zeros elsewhere.
  */
module BitBuffer {
  import opened Bits

  /** Bit `i` of a register. */
  predicate BitAt(x: nat, i: nat) {
    (x / Pow2(i)) % 2 == 1
  }

  /** The registers hold exactly the bits of `b`, mirrored, and zeros elsewhere. */
  ghost predicate Mirrored(accumulator: uint32, rotalumucca: uint32, b: seq<bool>) {
    |b| <= 32
    && forall i :: 0 <= i < 32 ==>
         (BitAt(accumulator, i) <==> i < |b| && b[i])
         && (BitAt(rotalumucca, 31 - i) <==> i < |b| && b[i])
  }

  /** The same as numbers. */
  ghost predicate Valued(accumulator: uint32, rotalumucca: uint32, b: seq<bool>) {
    |b| <= 32 && accumulator == Lsb(b) && rotalumucca == Msb(b) * Pow2(32 - |b|)
  }

  lemma ValuedIsMirrored(accumulator: uint32, rotalumucca: uint32, b: seq<bool>)
    requires Valued(accumulator, rotalumucca, b)
    ensures Mirrored(accumulator, rotalumucca, b)
  {
    forall i | 0 <= i < 32
      ensures BitAt(accumulator, i) <==> i < |b| && b[i]
      ensures BitAt(rotalumucca, 31 - i) <==> i < |b| && b[i]
    {
      ValuedBit(accumulator, rotalumucca, b, i);
    }
  }

  lemma MirroredIsValued(accumulator: uint32, rotalumucca: uint32, b: seq<bool>)
    requires Mirrored(accumulator, rotalumucca, b)
    ensures Valued(accumulator, rotalumucca, b)
  {
    hide Lsb, Msb, Pow2;
    var padded := b + seq(32 - |b|, (i: nat) => false);
    Pow2Values();
    forall i | 0 <= i < 32 ensures ToBits(accumulator, 32)[i] == padded[i] {
      assert BitAt(accumulator, i) <==> i < |b| && b[i];
    }
    assert ToBits(accumulator, 32) == padded;
    LsbToBits(accumulator, 32);
    LsbAppend(b, padded[|b|..]);
    AllZero(padded[|b|..]);
    assert padded == b + padded[|b|..];
    forall i | 0 <= i < 32 ensures ToBitsMsb(rotalumucca, 32)[i] == padded[i] {
      assert BitAt(accumulator, i) == BitAt(rotalumucca, 31 - i);
    }
    assert ToBitsMsb(rotalumucca, 32) == padded;
    MsbToBits(rotalumucca, 32);
    MsbAppend(b, padded[|b|..]);
  }

  lemma {:induction false} AllZero(b: seq<bool>)
    requires forall i :: 0 <= i < |b| ==> !b[i]
    ensures Lsb(b) == 0 && Msb(b) == 0
  {
    if b != [] {
      AllZero(b[1..]);
      AllZero(b[..|b| - 1]);
    }
  }

  lemma {:induction false} ValuedBit(accumulator: uint32, rotalumucca: uint32, b: seq<bool>, i: nat)
    requires Valued(accumulator, rotalumucca, b) && i < 32
    ensures BitAt(accumulator, i) <==> i < |b| && b[i]
    ensures BitAt(rotalumucca, 31 - i) <==> i < |b| && b[i]
  {
    hide Lsb, Msb;
    if i < |b| {
      LsbBitAt(b, i);
      MsbBitAt(b, i);
    } else {
      LsbBound(b);
      Pow2Monotone(|b|, i);
      assert accumulator / Pow2(i) == 0 by { DivModUnique(accumulator, 0, Pow2(i), accumulator); }
      Pow2Add(i - |b|, 32 - i);
      assert 32 - |b| == (i - |b|) + (32 - i);
      var m := Msb(b) * Pow2(i - |b|);
      MulAssoc(Msb(b), Pow2(i - |b|), Pow2(32 - i));
      assert Pow2(32 - i) == 2 * Pow2(31 - i);
      MulAssoc(m, 2, Pow2(31 - i));
      DivModUnique(rotalumucca, 2 * m, Pow2(31 - i), 0);
    }
  }

  lemma {:induction false} LsbBitAt(b: seq<bool>, i: nat)
    requires i < |b|
    ensures BitAt(Lsb(b), i) == b[i]
  {
    LsbSplit(b, i);
    assert b[i..][0] == b[i];
  }

  lemma {:induction false} MsbBitAt(b: seq<bool>, i: nat)
    requires i < |b| <= 32
    ensures BitAt(Msb(b) * Pow2(32 - |b|), 31 - i) == b[i]
  {
    hide Pow2, Msb;
    MsbLeading(b, i + 1, 32);
    MsbLast(b[..i + 1]);
  }

  lemma {:induction false} MsbLast(b: seq<bool>)
    requires |b| > 0
    ensures Msb(b) % 2 == 1 <==> b[|b| - 1]
  {
  }

  /** The bit-reversed value of a byte. */
  function Reversed(x: byte): (r: byte) {
    ReversedBound(x);
    Msb(ToBits(x, 8))
  }

  lemma {:induction false} ReversedBound(x: byte)
    ensures Msb(ToBits(x, 8)) < 256
  {
    Pow2Values();
    MsbBound(ToBits(x, 8));
  }

  /** Or-ing a byte and its reversal in just beyond the valid bits appends the byte's bits. */
  lemma {:induction false} AppendByte(accumulator: uint32, rotalumucca: uint32, b: seq<bool>, x: byte)
    requires Mirrored(accumulator, rotalumucca, b) && |b| <= 24
    ensures Or(accumulator, Shl32(x, |b|)) < 0x1_0000_0000
    ensures Or(rotalumucca, Shl32(Reversed(x), 24 - |b|)) < 0x1_0000_0000
    ensures Mirrored(Or(accumulator, Shl32(x, |b|)), Or(rotalumucca, Shl32(Reversed(x), 24 - |b|)),
                     b + ToBits(x, 8))
  {
    hide Mirrored, Or, Shl32, Lsb, Msb, Pow2, ToBits, Reversed;
    MirroredIsValued(accumulator, rotalumucca, b);
    AppendLow(accumulator, b, x);
    AppendHigh(rotalumucca, b, x);
    ValuedIsMirrored(Or(accumulator, Shl32(x, |b|)), Or(rotalumucca, Shl32(Reversed(x), 24 - |b|)),
                     b + ToBits(x, 8));
  }

  lemma {:induction false} AppendLow(accumulator: uint32, b: seq<bool>, x: byte)
    requires accumulator == Lsb(b) && |b| <= 24
    ensures Or(accumulator, Shl32(x, |b|)) == Lsb(b + ToBits(x, 8)) < 0x1_0000_0000
  {
    var n := |b|;
    FitsRegister(x, n);
    LsbBound(b);
    OrDisjoint(accumulator, x, n);
    ByteValue(x);
    LsbAppend(b, ToBits(x, 8));
    MulCommutes(x, Pow2(n));
    LsbBound(b + ToBits(x, 8));
    Pow2Monotone(n + 8, 32);
    Pow2Values();
  }

  lemma {:induction false} AppendHigh(rotalumucca: uint32, b: seq<bool>, x: byte)
    requires |b| <= 24 && rotalumucca == Msb(b) * Pow2(32 - |b|)
    ensures Or(rotalumucca, Shl32(Reversed(x), 24 - |b|))
            == Msb(b + ToBits(x, 8)) * Pow2(32 - (|b| + 8)) < 0x1_0000_0000
  {
    hide Or, Msb, Pow2, Shl32;
    var n, t := |b|, ToBits(x, 8);
    var v := Reversed(x);
    FitsRegister(v, 24 - n);
    Pow2Values();
    ShiftBound(v, 8, 24 - n);
    OrCommutes(rotalumucca, v * Pow2(24 - n));
    OrDisjoint(v * Pow2(24 - n), Msb(b), 32 - n);
    MsbAppend(b, t);
    Pow2Add(8, 24 - n);
    MulAssoc(Msb(b), Pow2(8), Pow2(24 - n));
    Distribute(Msb(b) * Pow2(8), v, Pow2(24 - n));
    MsbBound(b + t);
    ShiftBound(Msb(b + t), n + 8, 24 - n);
  }

  lemma {:induction false} ShiftBound(x: nat, m: nat, n: nat)
    requires x < Pow2(m)
    ensures x * Pow2(n) < Pow2(m + n)
  {
    MulLess(x, Pow2(m), Pow2(n));
    Pow2Add(m, n);
  }

  lemma {:induction false} FitsRegister(x: byte, n: nat)
    requires n <= 24
    ensures Shl32(x, n) == x * Pow2(n)
  {
    Pow2Values();
    ShiftBound(x, 8, n);
    Pow2Monotone(8 + n, 32);
    DivModUnique(x * Pow2(n), 0, 0x1_0000_0000, x * Pow2(n));
  }

  /** Shifting both registers by `count` drops the first `count` bits; the low bits of the
      accumulator before the shift are the field that they form. */
  lemma {:induction false} DropBits(accumulator: uint32, rotalumucca: uint32, b: seq<bool>, count: nat)
    requires Mirrored(accumulator, rotalumucca, b) && count <= |b|
    ensures accumulator % Pow2(count) == Lsb(b[..count])
    ensures Shr(accumulator, count) < 0x1_0000_0000
    ensures Mirrored(Shr(accumulator, count), Shl32(rotalumucca, count), b[count..])
  {
    MirroredIsValued(accumulator, rotalumucca, b);
    LsbSplit(b, count);
    LsbBound(b[count..]);
    Pow2Monotone(|b| - count, 32);
    Pow2Values();
    DropHigh(rotalumucca, b, count);
    ValuedIsMirrored(Shr(accumulator, count), Shl32(rotalumucca, count), b[count..]);
  }

  lemma {:induction false} DropHigh(rotalumucca: uint32, b: seq<bool>, count: nat)
    requires count <= |b| <= 32 && rotalumucca == Msb(b) * Pow2(32 - |b|)
    ensures Shl32(rotalumucca, count) == Msb(b[count..]) * Pow2(32 - (|b| - count))
  {
    var n := |b|;
    var hi, lo := Msb(b[..count]), Msb(b[count..]);
    assert b == b[..count] + b[count..];
    MsbAppend(b[..count], b[count..]);
    MsbBound(b[count..]);
    Pow2Add(32 - n, count);
    assert 32 - n + count == 32 - (n - count);
    MulAssoc(Msb(b), Pow2(32 - n), Pow2(count));
    Pow2Add(n - count, 32 - (n - count));
    Pow2Values();
    ModKeepsLow(hi, lo, Pow2(n - count), Pow2(32 - (n - count)));
  }

  lemma {:induction false} ModKeepsLow(hi: nat, lo: nat, p: nat, q: nat)
    requires lo < p && q > 0
    ensures p * q > 0 && ((hi * p + lo) * q) % (p * q) == lo * q
  {
    Distribute(hi * p, lo, q);
    MulAssoc(hi, p, q);
    MulLess(lo, p, q);
    DivModUnique((hi * p + lo) * q, hi, p * q, lo * q);
  }
}
