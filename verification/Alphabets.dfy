/** The Huffman alphabet of the decompressor: one symbol set per code length, a quick lookup
    table over the first seven bits, and the raw symbols ordered by code length and then by
    symbol value.  `Represents` says what the tables mean in terms of the canonical code.
  */
module Alphabets {
  import opened Bits
  import opened Huffman

  /** The shift that leaves the seven bits of a quick lookup out of sixteen. */
  const QL_SHIFT := 9

  /** The set of symbols whose codes have `bits` bits.  `raw` is an index into the raw symbol
      table; once adjusted it is the index at which code zero of this length would sit, which
      may lie before the table. */
  datatype HufSymbols = HufSymbols(bits: nat, shift: nat, freq: nat, start: nat, raw: int)

  // ----- The packed table of code lengths, two to a byte

  function Length(packed: seq<byte>, index: nat): (bits: nat)
    requires index / 2 < |packed|
    ensures bits <= MAX_BITS
  {
    if index % 2 == 0 then packed[index / 2] % 16 else packed[index / 2] / 16
  }

  /** The code lengths of `count` symbols from position `offset` on. */
  function LengthsAt(packed: seq<byte>, count: nat, offset: nat): (lens: seq<nat>)
    requires offset + count <= 2 * |packed|
    ensures Lengths(lens) && |lens| == count
    ensures forall i :: 0 <= i < count ==> lens[i] == Length(packed, offset + i)
  {
    if count == 0 then []
    else LengthsAt(packed, count - 1, offset) + [Length(packed, offset + count - 1)]
  }

  /** Number of symbols with codes shorter than `k`. */
  function Shorter(lens: seq<nat>, k: nat): nat {
    if k <= 1 then 0 else Shorter(lens, k - 1) + Count(lens, k - 1)
  }

  lemma {:induction false} ShorterSnoc(lens: seq<nat>, l: nat, k: nat)
    ensures Shorter(lens + [l], k) == Shorter(lens, k) + (if 1 <= l < k then 1 else 0)
  {
    if k > 1 {
      ShorterSnoc(lens, l, k - 1);
      assert (lens + [l])[..|lens|] == lens;
    }
  }

  lemma {:induction false} ShorterEmpty(k: nat)
    ensures Shorter([], k) == 0
  {
    if k > 1 {
      ShorterEmpty(k - 1);
    }
  }

  lemma {:induction false} ShorterBound(lens: seq<nat>, k: nat)
    ensures Shorter(lens, k) <= |lens|
  {
    if lens == [] {
      ShorterEmpty(k);
    } else {
      var m := |lens| - 1;
      ShorterBound(lens[..m], k);
      ShorterSnoc(lens[..m], lens[m], k);
      assert lens == lens[..m] + [lens[m]];
    }
  }

  lemma {:induction false} ShorterMonotone(lens: seq<nat>, j: nat, k: nat)
    requires 1 <= j < k
    ensures Shorter(lens, j) + Count(lens, j) <= Shorter(lens, k)
  {
    if j < k - 1 {
      ShorterMonotone(lens, j, k - 1);
    }
  }

  /** Position of a used symbol in the raw symbol table. */
  function Slot(lens: seq<nat>, sym: nat): nat
    requires sym < |lens|
  {
    Shorter(lens, lens[sym]) + Count(lens[..sym], lens[sym])
  }

  lemma {:induction false} SlotBound(lens: seq<nat>, sym: nat)
    requires sym < |lens| && 0 < lens[sym]
    ensures Slot(lens, sym) < |lens|
  {
    RankBound(lens, sym);
    ShorterBound(lens, lens[sym] + 1);
  }

  lemma {:induction false} SlotInjective(lens: seq<nat>, s: nat, t: nat)
    requires s < t < |lens| && 0 < lens[s] && 0 < lens[t]
    ensures Slot(lens, s) != Slot(lens, t)
  {
    RankBound(lens, s);
    RankBound(lens, t);
    if lens[s] == lens[t] {
      RankOrder(lens, s, t);
    } else if lens[s] < lens[t] {
      ShorterMonotone(lens, lens[s], lens[t]);
    } else {
      ShorterMonotone(lens, lens[t], lens[s]);
    }
  }

  /** First code of length `k`, normalised to 16 bits. */
  function Start(lens: seq<nat>, k: nat): nat
    requires 1 <= k <= 16
  {
    Bound(lens, k - 1)
  }

  function Entry(lens: seq<nat>, k: nat, raw: int): HufSymbols
    requires 1 <= k <= 16
  {
    HufSymbols(k, 16 - k, Count(lens, k), Start(lens, k), raw)
  }

  /** `l` is the last of the lengths up to `top` whose codes may start with the prefix `p`. */
  ghost predicate LastStarting(lens: seq<nat>, p: nat, l: nat, top: nat)
    requires top <= 15
  {
    1 <= l <= top
    && Shr(Start(lens, l), QL_SHIFT) <= p
    && forall k :: l < k <= top ==> p < Shr(Start(lens, k), QL_SHIFT)
  }

  class Alphabet {
    const huf: array<HufSymbols>
    const lookup: array<nat>
    const raw: array<nat>

    ghost function Tables(): set<object> {
      {huf as object, lookup as object, raw as object}
    }

    ghost predicate Shaped() {
      huf.Length == MAX_BITS && lookup.Length == 128 && lookup != raw
      && huf as object != lookup && huf as object != raw
    }

    constructor (capacity: nat)
      ensures Shaped() && raw.Length == capacity
      ensures fresh(huf) && fresh(lookup) && fresh(raw)
    {
      huf := new HufSymbols[15](i => HufSymbols(0, 0, 0, 0, 0));
      lookup := new nat[128];
      raw := new nat[capacity];
    }

    ghost predicate RawFilled(lens: seq<nat>, upto: nat)
      requires upto <= |lens|
      reads raw
    {
      forall sym :: 0 <= sym < upto && 0 < lens[sym] ==>
                      Slot(lens, sym) < raw.Length && raw[Slot(lens, sym)] == sym
    }

    /** The tables encode the complete canonical code with these code lengths. */
    ghost predicate Represents(lens: seq<nat>)
      reads huf, lookup, raw
    {
      Shaped() && Complete(lens)
      && (forall k :: 0 <= k < 15 ==>
                        huf[k] == Entry(lens, k + 1, Shorter(lens, k + 1) - First(lens, k + 1)))
      && RawFilled(lens, |lens|)
      && (forall p :: 0 <= p < 128 ==> LastStarting(lens, p, lookup[p] + 1, 15))
    }

    ghost predicate Counted(lens: seq<nat>)
      requires Shaped()
      reads huf
    {
      forall i :: 0 <= i < 15 ==> huf[i].freq == Count(lens, i + 1)
    }

    /** Sets `i` up to `upto` are final except that their raw index points past their first
        `|done|` symbols, where `done` is a prefix of the code lengths. */
    ghost predicate Ranged(lens: seq<nat>, done: seq<nat>, upto: nat)
      requires Shaped() && upto <= 15
      reads huf
    {
      forall i :: 0 <= i < upto ==>
        huf[i] == Entry(lens, i + 1, Shorter(lens, i + 1) + Count(done, i + 1))
    }

    /** Count the symbols of each length. */
    method CountLengths(packed: array<byte>, count: nat, offset: nat)
      requires Shaped() && packed !in Tables()
      requires offset + count <= 2 * packed.Length
      modifies huf
      ensures Counted(LengthsAt(packed[..], count, offset))
    {
      for k := 0 to 15
        invariant forall i :: 0 <= i < k ==> huf[i].freq == 0
      {
        huf[k] := HufSymbols(0, 0, 0, 0, 0);
      }
      ghost var lens := LengthsAt(packed[..], count, offset);
      for sym := 0 to count
        invariant packed[..] == old(packed[..])
        invariant Counted(lens[..sym])
      {
        var bits := Length(packed[..], sym + offset);
        CountSteps(lens, sym);
        if bits != 0 {
          huf[bits - 1] := huf[bits - 1].(freq := huf[bits - 1].freq + 1);
        }
      }
      assert lens[..count] == lens;
    }

    /** Give each length its first code, in order of length.  Fails as soon as the codes up to
        some length do not fit. */
    method AssignRanges(ghost lens: seq<nat>) returns (ok: bool, complete: bool)
      requires Shaped() && Lengths(lens) && Counted(lens)
      modifies huf
      ensures !ok ==> Kraft(lens) > 0x8000
      ensures ok ==> (complete <==> Kraft(lens) == 0x8000)
      ensures ok ==> Ranged(lens, [], 15)
    {
      hide Kraft, Count;
      var code, cumFreq := 0, 0;
      KraftIsBound(lens);
      Pow2Values();
      for bits := 1 to 16
        invariant code == First(lens, bits) && cumFreq == Shorter(lens, bits)
        invariant Ranged(lens, [], bits - 1)
        invariant forall i :: bits - 1 <= i < 15 ==> huf[i].freq == Count(lens, i + 1)
      {
        var freq := huf[bits - 1].freq;
        BoundStep(lens, bits);
        huf[bits - 1] := HufSymbols(bits, 16 - bits, freq, code * Pow2(16 - bits), cumFreq);
        code := code + freq;
        if code > Pow2(bits) {
          Oversubscribed(lens, bits);
          return false, false;
        }
        code := code * 2;
        cumFreq := cumFreq + freq;
      }
      assert First(lens, 16) == 2 * End(lens, 15) == Bound(lens, 15);
      return true, code == Pow2(16);
    }

    /** List the symbols of each length in symbol order. */
    method FillRaw(packed: array<byte>, count: nat, offset: nat)
      requires Shaped() && packed !in Tables()
      requires offset + count <= 2 * packed.Length && count <= raw.Length
      requires Ranged(LengthsAt(packed[..], count, offset), [], 15)
      modifies huf, raw
      ensures RawFilled(LengthsAt(packed[..], count, offset), count)
      ensures Ranged(LengthsAt(packed[..], count, offset), LengthsAt(packed[..], count, offset), 15)
    {
      hide Entry, Slot;
      ghost var lens := LengthsAt(packed[..], count, offset);
      for sym := 0 to count
        invariant packed[..] == old(packed[..])
        invariant Ranged(lens, lens[..sym], 15)
        invariant RawFilled(lens, sym)
      {
        var bits := Length(packed[..], sym + offset);
        if bits != 0 {
          Place(sym, bits, lens);
        } else {
          assert Ranged(lens, lens[..sym + 1], 15) by { CountSteps(lens, sym); }
        }
      }
      assert lens[..count] == lens;
    }

    method Place(sym: nat, bits: nat, ghost lens: seq<nat>)
      requires Shaped() && sym < |lens| <= raw.Length && 1 <= bits <= 15 && lens[sym] == bits
      requires Ranged(lens, lens[..sym], 15) && RawFilled(lens, sym)
      modifies huf, raw
      ensures RawFilled(lens, sym + 1)
      ensures Ranged(lens, lens[..sym + 1], 15)
    {
      CountSteps(lens, sym);
      SlotBound(lens, sym);
      forall s | 0 <= s < sym && 0 < lens[s] ensures Slot(lens, s) != Slot(lens, sym) {
        SlotInjective(lens, s, sym);
      }
      raw[huf[bits - 1].raw] := sym;
      huf[bits - 1] := huf[bits - 1].(raw := huf[bits - 1].raw + 1);
    }

    /** Point each set at the place of its code zero, and fill the quick lookup table. */
    method Finish(ghost lens: seq<nat>)
      requires Shaped() && Lengths(lens) && Ranged(lens, lens, 15)
      modifies huf, lookup
      ensures forall i :: 0 <= i < 15 ==>
                huf[i] == Entry(lens, i + 1, Shorter(lens, i + 1) - First(lens, i + 1))
      ensures forall p :: 0 <= p < 128 ==> LastStarting(lens, p, lookup[p] + 1, 15)
    {
      for bits := 1 to 16
        invariant forall i :: 0 <= i < bits - 1 ==>
                    huf[i] == Entry(lens, i + 1, Shorter(lens, i + 1) - First(lens, i + 1))
        invariant forall i :: bits - 1 <= i < 15 ==> huf[i] == old(huf[i])
        invariant bits > 1 ==> forall p :: 0 <= p < 128 ==> LastStarting(lens, p, lookup[p] + 1, bits - 1)
      {
        var symbols := huf[bits - 1];
        var first := Shr(symbols.start, symbols.shift);
        FirstOfStart(lens, bits);
        huf[bits - 1] := symbols.(raw := symbols.raw - symbols.freq - first);
        FillLookup(lens, bits, Shr(symbols.start, QL_SHIFT));
      }
    }

    method FillLookup(ghost lens: seq<nat>, bits: nat, from: nat)
      requires Shaped() && 1 <= bits <= 15
      requires from == Shr(Start(lens, bits), QL_SHIFT)
      requires bits > 1 ==> forall p :: 0 <= p < 128 ==> LastStarting(lens, p, lookup[p] + 1, bits - 1)
      modifies lookup
      ensures forall p :: 0 <= p < 128 ==> LastStarting(lens, p, lookup[p] + 1, bits)
    {
      if bits == 1 {
        assert Start(lens, 1) == 0;
        assert from == 0;
      }
      var prefix := from;
      while prefix < 128
        invariant from <= prefix
        invariant forall p :: 0 <= p < 128 && from <= p < prefix ==> lookup[p] == bits - 1
        invariant forall p :: 0 <= p < 128 && !(from <= p < prefix) ==> lookup[p] == old(lookup[p])
      {
        lookup[prefix] := bits - 1;
        prefix := prefix + 1;
      }
    }

    /** Construct the alphabet.  It succeeds exactly when the code lengths describe a complete
        code, and then the tables represent that code. */
    method Build(packed: array<byte>, count: nat, offset: nat) returns (ok: bool)
      requires Shaped() && packed !in Tables()
      requires offset + count <= 2 * packed.Length && count <= raw.Length
      modifies huf, lookup, raw
      ensures ok <==> Complete(LengthsAt(packed[..], count, offset))
      ensures ok ==> Represents(LengthsAt(packed[..], count, offset))
    {
      ghost var lens := LengthsAt(packed[..], count, offset);
      CountLengths(packed, count, offset);
      var fits, complete := AssignRanges(lens);
      if !fits {
        return false;
      }
      assert packed[..] == old(packed[..]);
      FillRaw(packed, count, offset);
      assert packed[..] == old(packed[..]);
      Finish(lens);
      assert packed[..] == old(packed[..]);
      return complete;
    }

    /** Find the symbol set of a sixteen-bit window: start from the quick lookup table and walk
        down.  The walk never leaves the table, because the shortest length starts at zero. */
    method Search(window: nat, ghost lens: seq<nat>) returns (k: nat)
      requires Represents(lens) && window < 0x1_0000
      ensures 1 <= k <= 15 && Start(lens, k) <= window < Bound(lens, k)
    {
      PrefixBound(window);
      k := lookup[Shr(window, QL_SHIFT)] + 1;
      LookupIsUpperBound(lens, window, k);
      while window < huf[k - 1].start
        invariant 1 <= k <= 15 && window < Bound(lens, k)
        decreases k
      {
        assert Start(lens, 1) == 0;
        k := k - 1;
      }
    }

    /** The raw symbol of a window in the set found for it. */
    method Symbol(window: nat, k: nat, ghost lens: seq<nat>) returns (sym: nat)
      requires Represents(lens) && 1 <= k <= 15
      requires Start(lens, k) <= window < Bound(lens, k)
      ensures SymbolFor(lens, window, k, sym)
    {
      ghost var s := SymbolExists(lens, window, k);
      assert Slot(lens, s) == Shorter(lens, k) - First(lens, k) + window / Pow2(16 - k);
      sym := raw[huf[k - 1].raw + Shr(window, huf[k - 1].shift)];
    }
  }

  lemma {:induction false} CountSteps(lens: seq<nat>, sym: nat)
    requires sym < |lens|
    ensures forall k :: Count(lens[..sym + 1], k) == Count(lens[..sym], k) + (if lens[sym] == k then 1 else 0)
  {
    forall k ensures Count(lens[..sym + 1], k) == Count(lens[..sym], k) + (if lens[sym] == k then 1 else 0) {
      CountStep(lens, k, sym);
    }
  }

  lemma {:induction false} FirstOfStart(lens: seq<nat>, k: nat)
    requires 1 <= k <= 15
    ensures Shr(Start(lens, k), 16 - k) == First(lens, k)
  {
    BoundStep(lens, k);
    DivModUnique(Start(lens, k), First(lens, k), Pow2(16 - k), 0);
  }

  lemma {:induction false} LookupIsUpperBound(lens: seq<nat>, window: nat, l: nat)
    requires Complete(lens) && window < 0x1_0000 && LastStarting(lens, Shr(window, QL_SHIFT), l, 15)
    ensures window < Bound(lens, l)
  {
    CompleteBound(lens);
    if l < 15 {
      assert Start(lens, l + 1) == Bound(lens, l);
      PrefixMonotone(Bound(lens, l), window);
    }
  }

  lemma {:induction false} PrefixMonotone(x: nat, y: nat)
    ensures x <= y ==> Shr(x, QL_SHIFT) <= Shr(y, QL_SHIFT)
  {
    Pow2Values();
  }

  lemma {:induction false} PrefixBound(window: nat)
    requires window < 0x1_0000
    ensures Shr(window, QL_SHIFT) < 128
  {
    Pow2Values();
  }

  lemma {:induction false} Oversubscribed(lens: seq<nat>, k: nat)
    requires Lengths(lens) && 1 <= k <= 15 && End(lens, k) > Pow2(k)
    ensures Kraft(lens) > 0x8000
  {
    KraftIsBound(lens);
    BoundMonotone(lens, k, 15);
    MulLess(Pow2(k), End(lens, k), Pow2(16 - k));
    Pow2Add(k, 16 - k);
    Pow2Values();
  }
}
