/** The tables that are filled once, before the first decompressor is used. */
module DeflateTables {
  import opened Bits
  import opened BitBuffer
  import opened Inflation

  datatype Tables = Tables(reverse: seq<byte>, litlenBase: seq<nat>, distanceBase: seq<nat>)

  /** The tables agree with bit reversal and with the tables of section 3.2.5 of RFC 1951. */
  ghost predicate Correct(t: Tables) {
    Reverses(t.reverse) && t.litlenBase == LENGTH_BASE && t.distanceBase == DISTANCE_BASE
  }

  ghost predicate Reverses(reverse: seq<byte>) {
    |reverse| == 256 && forall x: byte :: reverse[x] == Reversed(x)
  }

  /** Number of extra bits as the decompressor computes it from a code. */
  function ExtraBits(code: nat, perStep: nat): nat
    requires perStep > 0
  {
    if code / perStep == 0 then 0 else code / perStep - 1
  }

  lemma {:induction false} LengthTable(i: nat)
    requires i < 28
    ensures ExtraBits(i, 4) == LENGTH_EXTRA[i]
    ensures LENGTH_BASE[i] + Pow2(ExtraBits(i, 4)) == if i == 27 then 259 else LENGTH_BASE[i + 1]
  {
    hide Pow2;
    LengthExtraTable(i);
    LengthBaseTable(i);
  }

  lemma {:induction false} LengthExtraTable(i: nat)
    requires i < 28
    ensures ExtraBits(i, 4) == LENGTH_EXTRA[i]
  {
  }

  lemma {:induction false} LengthBaseTable(i: nat)
    requires i < 28
    ensures LENGTH_BASE[i] + Pow2(LENGTH_EXTRA[i]) == if i == 27 then 259 else LENGTH_BASE[i + 1]
  {
    Pow2More();
  }

  lemma {:induction false} DistanceTable(i: nat)
    requires i < 30
    ensures ExtraBits(i, 2) == DISTANCE_EXTRA[i]
    ensures DISTANCE_BASE[i] + Pow2(ExtraBits(i, 2)) == if i == 29 then 32769 else DISTANCE_BASE[i + 1]
  {
    DistanceExtraTable(i);
    if i < 15 {
      DistanceTableLow(i);
    } else {
      DistanceTableHigh(i);
    }
  }

  lemma {:induction false} DistanceExtraTable(i: nat)
    requires i < 32
    ensures ExtraBits(i, 2) == DISTANCE_EXTRA[i]
  {
  }

  lemma {:induction false} DistanceTableLow(i: nat)
    requires i < 15
    ensures DISTANCE_BASE[i] + Pow2(DISTANCE_EXTRA[i]) == DISTANCE_BASE[i + 1]
  {
    Pow2More();
  }

  lemma {:induction false} DistanceTableHigh(i: nat)
    requires 15 <= i < 30
    ensures DISTANCE_BASE[i] + Pow2(DISTANCE_EXTRA[i]) == if i == 29 then 32769 else DISTANCE_BASE[i + 1]
  {
    Pow2More();
  }

  lemma {:induction false} Pow2More()
    ensures Pow2(0) == 1 && Pow2(1) == 2 && Pow2(2) == 4 && Pow2(3) == 8 && Pow2(4) == 16 && Pow2(5) == 32
    ensures Pow2(6) == 64 && Pow2(7) == 128 && Pow2(8) == 256 && Pow2(9) == 512 && Pow2(10) == 1024
    ensures Pow2(11) == 2048 && Pow2(12) == 4096 && Pow2(13) == 8192
  {
  }

  method ReverseByte(i: byte) returns (r: byte)
    ensures r == Reversed(i)
  {
    hide Msb, Pow2;
    assert Msb([]) == 0 && Pow2(0) == 1 by { MsbEmpty(); }
    var bit: byte := 1;
    r := 0;
    ghost var n: nat := 0;
    ghost var b := ToBits(i, 8);
    while bit != 0
      invariant n <= 8 && r == Msb(b[..n])
      invariant bit == if n == 8 then 0 else Pow2(n)
      decreases 8 - n
    {
      ReverseStep(b, n);
      r := (r * 2) % 256;
      if (i / bit) % 2 == 1 {
        r := r + 1;
      }
      bit := (bit * 2) % 256;
      n := n + 1;
    }
    assert b[..8] == b;
  }

  lemma {:induction false} MsbEmpty()
    ensures Msb([]) == 0 && Pow2(0) == 1
  {
  }

  lemma {:induction false} ReverseStep(b: seq<bool>, n: nat)
    requires n < |b| == 8
    ensures Msb(b[..n + 1]) == 2 * Msb(b[..n]) + Bit(b[n]) < 256
    ensures Pow2(n + 1) == 2 * Pow2(n) && (n < 7 ==> Pow2(n) < 128) && (n == 7 ==> Pow2(n) == 128)
  {
    assert b[..n + 1][..n] == b[..n];
    MsbBound(b[..n + 1]);
    Pow2Monotone(n + 1, 8);
    Pow2More();
  }

  method InitReverse() returns (table: array<byte>)
    ensures fresh(table) && table.Length == 256
    ensures forall x: byte :: table[x] == Reversed(x)
  {
    table := new byte[256](_ => 0);
    assert Reversed(0) == 0 by { ReversedZero(); }
    var i: byte := 255;
    while i != 0
      invariant table[0] == 0
      invariant forall x: byte :: x > i ==> table[x] == Reversed(x)
      decreases i
    {
      table[i] := ReverseByte(i);
      i := i - 1;
    }
  }

  lemma {:induction false} ReversedZero()
    ensures Reversed(0) == 0
  {
    MsbZeros(ToBits(0, 8));
  }

  lemma {:induction false} MsbZeros(b: seq<bool>)
    requires forall i :: 0 <= i < |b| ==> !b[i]
    ensures Msb(b) == 0
  {
    if b != [] {
      MsbZeros(b[..|b| - 1]);
    }
  }

  method InitLitlenBase() returns (table: array<nat>)
    ensures fresh(table) && table[..] == LENGTH_BASE
  {
    hide Pow2;
    table := new nat[28];
    var base := 3;
    for i := 0 to 28
      invariant base == if i == 28 then 259 else LENGTH_BASE[i]
      invariant forall j :: 0 <= j < i ==> table[j] == LENGTH_BASE[j]
    {
      LengthTable(i);
      var bits := i / 4;
      if bits != 0 {
        bits := bits - 1;
      }
      table[i] := base;
      base := base + Pow2(bits);
    }
  }

  /** Codes 30 and 31 are left at zero. */
  method InitDistanceBase() returns (table: array<nat>)
    ensures fresh(table) && table[..] == DISTANCE_BASE
  {
    hide Pow2;
    table := new nat[32](_ => 0);
    var base := 1;
    for i := 0 to 30
      invariant base == if i == 30 then 32769 else DISTANCE_BASE[i]
      invariant forall j :: 0 <= j < i ==> table[j] == DISTANCE_BASE[j]
      invariant table[30] == 0 && table[31] == 0
    {
      DistanceTable(i);
      var bits := i / 2;
      if bits != 0 {
        bits := bits - 1;
      }
      assert bits == ExtraBits(i, 2);
      table[i] := base;
      base := base + Pow2(bits);
    }
  }

  /** Global initialisation. */
  method InitTables() returns (t: Tables)
    ensures Correct(t)
  {
    var reverse := InitReverse();
    var litlenBase := InitLitlenBase();
    var distanceBase := InitDistanceBase();
    t := Tables(reverse[..], litlenBase[..], distanceBase[..]);
  }
}
