/** What RFC 1951 says in words and numbers, proved of the definitions that reader, writer and program
    share: its tables and codes, how blocks are laid out bit by bit, and what is rejected.
  */
module DeflateLaws {
  import opened Bits
  import opened Huffman
  import opened Lz77
  import opened Inflation
  import opened DeflateTables
  import opened DeflateFormat

  // ----- Bits

  /** Fields start with their lowest bit, Huffman codes with their highest. */
  lemma {:induction false} BitOrder(x: nat, n: nat, i: nat)
    requires i < n
    ensures ToBits(x, n)[i] <==> (x / Pow2(i)) % 2 == 1
    ensures ToBitsMsb(x, n)[i] <==> ToBits(x, n)[n - 1 - i]
  {
  }

  lemma {:induction false} CodeBits(lens: seq<nat>, sym: nat, i: nat)
    requires sym < |lens| && i < lens[sym]
    ensures Encode(lens, sym)[i] <==> (Code(lens, sym) / Pow2(lens[sym] - 1 - i)) % 2 == 1
  {
    hide Code;
  }

  lemma {:induction false} BitsAppend(x: nat, y: nat, m: nat, n: nat)
    requires x < Pow2(m)
    ensures ToBits(x + Pow2(m) * y, m + n) == ToBits(x, m) + ToBits(y, n)
    decreases m
  {
    hide ToBits, Pow2;
    if m == 0 {
      PowZero();
      assert ToBits(x, 0) + ToBits(y, n) == ToBits(y, n);
    } else {
      var z := x + Pow2(m) * y;
      HalfSum(x, m, y);
      BitsAppend(x / 2, y, m - 1, n);
      ToBitsStep(z, m + n);
      ToBitsStep(x, m);
      assert [x % 2 == 1] + ToBits(x / 2, m - 1) + ToBits(y, n)
          == [x % 2 == 1] + (ToBits(x / 2, m - 1) + ToBits(y, n));
    }
  }

  lemma {:induction false} HalfSum(x: nat, m: nat, y: nat)
    requires m > 0 && x < Pow2(m)
    ensures x / 2 < Pow2(m - 1)
    ensures (x + Pow2(m) * y) % 2 == x % 2 && (x + Pow2(m) * y) / 2 == x / 2 + Pow2(m - 1) * y
  {
    assert Pow2(m) == 2 * Pow2(m - 1);
    var p := Pow2(m - 1) * y;
    assert Pow2(m) * y == 2 * p;
  }

  /** The bits of the one's complement are the other ones. */
  lemma {:induction false} Complement(x: nat, n: nat, i: nat)
    requires x < Pow2(n) && i < n
    ensures ToBits(Pow2(n) - 1 - x, n)[i] == !ToBits(x, n)[i]
    decreases n
  {
    hide ToBits;
    var y := Pow2(n) - 1 - x;
    assert Pow2(n) == 2 * Pow2(n - 1);
    ToBitsStep(x, n);
    ToBitsStep(y, n);
    assert y / 2 == Pow2(n - 1) - 1 - x / 2 && y % 2 != x % 2;
    if i > 0 {
      Complement(x / 2, n - 1, i - 1);
    }
  }

  // ----- Section 3.2.2: canonical codes

  /** Codes of one length are consecutive in symbol order. */
  lemma {:induction false} SameLengthNext(lens: seq<nat>, s: nat, t: nat)
    requires s < t < |lens| && lens[s] == lens[t] && forall i :: s < i < t ==> lens[i] != lens[s]
    ensures Code(lens, t) == Code(lens, s) + 1
  {
    hide First;
    CountStep(lens, lens[s], s);
    CountSame(lens, lens[s], s + 1, t);
  }

  lemma {:induction false} CountSame(lens: seq<nat>, k: nat, i: nat, j: nat)
    requires i <= j <= |lens| && forall x :: i <= x < j ==> lens[x] != k
    ensures Count(lens[..j], k) == Count(lens[..i], k)
    decreases j
  {
    if i < j {
      CountStep(lens, k, j - 1);
      CountSame(lens, k, i, j - 1);
    }
  }

  /** The first code of all is zero. */
  lemma {:induction false} FirstCode(lens: seq<nat>, t: nat)
    requires t < |lens| && lens[t] > 0 && forall i :: 0 <= i < |lens| ==> lens[i] == 0 || lens[i] >= lens[t]
    requires forall i :: 0 <= i < t ==> lens[i] != lens[t]
    ensures Code(lens, t) == 0
  {
    hide First;
    CountSame(lens, lens[t], 0, t);
    assert lens[..0] == [];
    FirstZero(lens, lens[t]);
  }

  /** The first code of a length follows the last code of the length used before it, filled up with zeros. */
  lemma {:induction false} NextLength(lens: seq<nat>, s: nat, t: nat)
    requires s < |lens| && t < |lens| && 0 < lens[s] < lens[t]
    requires forall i :: s < i < |lens| ==> lens[i] != lens[s]
    requires forall i :: 0 <= i < t ==> lens[i] != lens[t]
    requires forall i :: 0 <= i < |lens| ==> !(lens[s] < lens[i] < lens[t])
    ensures Code(lens, t) == (Code(lens, s) + 1) * Pow2(lens[t] - lens[s])
  {
    hide First, End, Pow2;
    CountSame(lens, lens[t], 0, t);
    assert lens[..0] == [];
    CountStep(lens, lens[s], s);
    CountSame(lens, lens[s], s + 1, |lens|);
    assert lens[..|lens|] == lens;
    FirstUnused(lens, lens[s], lens[t]);
    EndIs(lens, lens[s]);
  }

  lemma {:induction false} EndIs(lens: seq<nat>, k: nat)
    requires k > 0
    ensures End(lens, k) == First(lens, k) + Count(lens, k)
  {
  }

  lemma {:induction false} CountNone(lens: seq<nat>, k: nat)
    requires forall i :: 0 <= i < |lens| ==> lens[i] != k
    ensures Count(lens, k) == 0
  {
    CountSame(lens, k, 0, |lens|);
    assert lens[..|lens|] == lens && lens[..0] == [];
  }

  lemma {:induction false} FirstZero(lens: seq<nat>, k: nat)
    requires k > 0 && forall i :: 0 <= i < |lens| ==> lens[i] == 0 || lens[i] >= k
    ensures First(lens, k) == 0
    decreases k
  {
    if k > 1 {
      FirstZero(lens, k - 1);
      CountNone(lens, k - 1);
    }
  }

  lemma {:induction false} FirstUnused(lens: seq<nat>, j: nat, k: nat)
    requires 0 < j < k && forall i :: 0 <= i < |lens| ==> !(j < lens[i] < k)
    ensures First(lens, k) == End(lens, j) * Pow2(k - j)
    decreases k
  {
    if k == j + 1 {
      assert Pow2(1) == 2 by { Pow2Values(); }
    } else {
      FirstUnused(lens, j, k - 1);
      CountNone(lens, k - 1);
      assert Pow2(k - j) == 2 * Pow2(k - 1 - j);
      MulAssoc(End(lens, j), Pow2(k - 1 - j), 2);
    }
  }

  // ----- Section 3.2.5: lengths and distances

  /** Each length symbol starts where the one before ends; four symbols at a time have one bit more. */
  lemma {:induction false} LengthSymbols(sym: nat)
    requires 257 <= sym
    ensures LengthBase(257) == 3
    ensures LengthExtraBits(sym) == if sym < 265 || sym >= 285 then 0 else (sym - 261) / 4
    ensures sym < 284 ==> LengthBase(sym + 1) == LengthBase(sym) + Pow2(LengthExtraBits(sym))
    ensures sym >= 285 ==> LengthBase(sym) == 258
  {
    hide Pow2;
    if sym < 285 {
      LengthTable(sym - 257);
    }
  }

  /** The same for distances, where two symbols at a time have one bit more; the undefined symbols
      start at zero. */
  lemma {:induction false} DistanceSymbols(sym: nat)
    requires sym < 32
    ensures DistanceBase(0) == 1
    ensures DistanceExtraBits(sym) == if sym < 4 then 0 else (sym - 2) / 2
    ensures sym < 29 ==> DistanceBase(sym + 1) == DistanceBase(sym) + Pow2(DistanceExtraBits(sym))
    ensures sym >= 30 ==> DistanceBase(sym) == 0
  {
    hide Pow2;
    if sym < 30 {
      DistanceTable(sym);
    }
  }

  /** A match is written as its length symbol and the extra bits, and then the same for the distance, and
      repeats the output from that distance on. */
  lemma {:induction false} MatchLayout(t: Token, lit: seq<nat>, dist: seq<nat>, out: seq<Cell>)
    requires t.Match? && Writable(t, lit, dist, |out|)
    ensures TokenBits(t, lit, dist, |out|)
            == Encode(lit, t.lenSym) + ToBits(t.lenExtra, LengthExtraBits(t.lenSym))
               + Encode(dist, t.distSym) + ToBits(t.distExtra, DistanceExtraBits(t.distSym))
    ensures var d, r := DistanceBase(t.distSym) + t.distExtra, Apply(t, out);
            && 0 < d <= |out| && |r| == |out| + LengthBase(t.lenSym) + t.lenExtra && r[..|out|] == out
            && forall i :: |out| <= i < |r| ==> r[i] == r[i - d]
  {
    hide Encode, ToBits, LengthBase, LengthExtraBits, DistanceExtraBits, Pow2;
    DuplicateRepeats(out, t.Dist(), t.Len());
  }

  lemma {:induction false} DuplicateRepeats(out: seq<Cell>, d: nat, len: nat)
    requires 0 < d <= |out|
    ensures var r := Duplicate(out, d, len);
            r[..|out|] == out && forall i :: |out| <= i < |r| ==> r[i] == r[i - d]
    decreases len
  {
    if len > 0 {
      var next := out + [out[|out| - d]];
      DuplicateRepeats(next, d, len - 1);
      var r := Duplicate(out, d, len);
      assert r[..|out|] == r[..|next|][..|out|] == out;
      assert r[|out|] == r[..|next|][|out|] && r[|out| - d] == r[..|out|][|out| - d];
    }
  }

  // ----- Section 3.2.6: the static codes

  /** The table of the standard: lengths and codes. */
  lemma {:induction false} StaticTable(sym: nat)
    requires sym < 288
    ensures StaticLit()[sym] == if sym < 144 then 8 else if sym < 256 then 9 else if sym < 280 then 7 else 8
    ensures Code(StaticLit(), sym) == if sym < 144 then 0x30 + sym else if sym < 256 then 0x190 + (sym - 144)
                                      else if sym < 280 then sym - 256 else 0xc0 + (sym - 280)
    ensures sym < 32 ==> StaticDist()[sym] == 5 && Code(StaticDist(), sym) == sym
  {
    hide First, Count, Repeat, StaticLit;
    StaticLength(sym);
    StaticCount(sym);
    StaticFirst();
    if sym < 32 {
      SameCount(5, 32, sym);
      assert StaticDist()[..sym] == Repeat(5, 32)[..sym];
      FirstZero(StaticDist(), 5);
    }
  }

  lemma {:induction false} StaticLength(sym: nat)
    requires sym < 288
    ensures StaticLit()[sym] == if sym < 144 then 8 else if sym < 256 then 9 else if sym < 280 then 7 else 8
  {
  }

  /** How many of the first symbols have each length. */
  lemma {:induction false} StaticCount(n: nat)
    requires n <= 288
    ensures Count(StaticLit()[..n], 8) == (if n < 144 then n else 144) + (if n < 280 then 0 else n - 280)
    ensures Count(StaticLit()[..n], 9) == if n < 144 then 0 else if n < 256 then n - 144 else 112
    ensures Count(StaticLit()[..n], 7) == if n < 256 then 0 else if n < 280 then n - 256 else 24
    ensures forall k :: 1 <= k < 7 ==> Count(StaticLit()[..n], k) == 0
  {
    hide StaticLit;
    if n == 0 {
      assert StaticLit()[..0] == [];
    } else {
      StaticCount(n - 1);
      StaticLength(n - 1);
      CountStep(StaticLit(), 8, n - 1);
      CountStep(StaticLit(), 9, n - 1);
      CountStep(StaticLit(), 7, n - 1);
      forall k | 1 <= k < 7 ensures Count(StaticLit()[..n], k) == 0 {
        CountStep(StaticLit(), k, n - 1);
      }
    }
  }

  lemma {:induction false} StaticFirst()
    ensures First(StaticLit(), 7) == 0 && First(StaticLit(), 8) == 0x30 && First(StaticLit(), 9) == 0x190
  {
    hide StaticLit, First, End, Count;
    var lens := StaticLit();
    StaticCount(288);
    assert lens[..288] == lens;
    forall i | 0 <= i < |lens| ensures lens[i] >= 7 {
      StaticLength(i);
    }
    FirstZero(lens, 7);
    FirstStep(lens, 8);
    FirstStep(lens, 9);
  }

  lemma {:induction false} FirstStep(lens: seq<nat>, k: nat)
    requires k > 1
    ensures First(lens, k) == 2 * (First(lens, k - 1) + Count(lens, k - 1))
  {
  }

  lemma {:induction false} SameCount(v: nat, size: nat, n: nat)
    requires n <= size
    ensures Count(Repeat(v, size)[..n], v) == n
  {
    if n > 0 {
      SameCount(v, size, n - 1);
      CountStep(Repeat(v, size), v, n - 1);
    }
  }

  // ----- Section 3.2.7: code lengths of dynamic blocks

  /** What each code length symbol stands for and how it is written: a length, three to six copies of
      the one before, three to ten zeros, or eleven to 138 zeros. */
  lemma {:induction false} CodeLengthSymbols(len: nat, x: nat, codes: seq<nat>, lens: seq<nat>, prev: nat)
    requires |codes| == 19 && forall i :: 0 <= i < 19 ==> codes[i] > 0
    ensures Sendable(Single(len), codes) <==> len <= 15
    ensures Sendable(Again(x), codes) <==> x < 4
    ensures Sendable(Zeros(x), codes) <==> x < 8
    ensures Sendable(ManyZeros(x), codes) <==> x < 128
    ensures Extended(Single(len), lens, prev) == lens + [len] && Single(len).Value(prev) == len
    ensures Extended(Again(x), lens, prev) == lens + Repeat(prev, 3 + x) && Again(x).Value(prev) == prev
    ensures Extended(Zeros(x), lens, prev) == lens + Repeat(0, 3 + x) && Zeros(x).Value(prev) == 0
    ensures Extended(ManyZeros(x), lens, prev) == lens + Repeat(0, 11 + x) && ManyZeros(x).Value(prev) == 0
    ensures len <= 15 ==> CommandsBits([Single(len)], codes) == Encode(codes, len)
    ensures CommandsBits([Again(x)], codes) == Encode(codes, 16) + ToBits(x, 2)
    ensures CommandsBits([Zeros(x)], codes) == Encode(codes, 17) + ToBits(x, 3)
    ensures CommandsBits([ManyZeros(x)], codes) == Encode(codes, 18) + ToBits(x, 7)
  {
    hide Encode, ToBits, Pow2;
    Pow2Values();
    PowZero();
    assert Repeat(len, 1) == [len];
    forall c: Command | HasSymbol(codes, c.Sym())
      ensures CommandsBits([c], codes) == Encode(codes, c.Sym()) + ToBits(c.Extra(), c.Width())
    {
      assert [c][1..] == [] && CommandsBits([], codes) == [];
    }
  }

  // ----- Sections 3.2.3 and 3.2.4: blocks

  /** A stored block: the bits 0 and 0, padding to a byte boundary, length, its complement and the data. */
  lemma {:induction false} StoredLayout(fill: seq<bool>, data: seq<byte>, final: bool, pos: nat, out: seq<Cell>)
    requires |data| < 0x1_0000 && |fill| == 7
    ensures var b := BlockBits(Stored(fill, data), final, pos, out);
            var n := (8 - (pos + 3) % 8) % 8;
            && |b| == 3 + n + 32 + 8 * |data| && b[..3] == [final, false, false] && b[3..3 + n] == fill[..n]
            && b[3 + n..19 + n] == ToBits(|data|, 16)
            && (forall i :: 19 + n <= i < 35 + n ==> b[i] == !b[i - 16])
            && b[35 + n..] == BytesToBits(data)
  {
    hide ToBits, BytesToBits;
    var b := BlockBits(Stored(fill, data), final, pos, out);
    var n := (8 - (pos + 3) % 8) % 8;
    TypeBits(final, 0);
    assert Pow2(16) == 0x1_0000 by { Pow2Values(); }
    forall i | 19 + n <= i < 35 + n ensures b[i] == !b[i - 16] {
      Complement(|data|, 16, i - 19 - n);
      assert b[i - 16] == ToBits(|data|, 16)[i - 19 - n];
      assert b[i] == ToBits(0xffff - |data|, 16)[i - 19 - n];
    }
  }

  /** A static block: the bits 1 and 0, the data and the end of the block. */
  lemma {:induction false} StaticLayout(k: Block, final: bool, pos: nat, out: seq<Cell>)
    requires k.Static? && WritableBlock(k, out)
    ensures BlockBits(k, final, pos, out)
            == [final, true, false] + TokensBits(k.tokens, LitCode(k), DistCode(k), out) + Encode(LitCode(k), 256)
  {
    hide ToBits, TokensBits, Encode, Complete, LitCode, DistCode, WritableAll, LegalDistances;
    TypeBits(final, 1);
    Joined([final, true, false], [], [], [], [], [], TokensBits(k.tokens, LitCode(k), DistCode(k), out),
           Encode(LitCode(k), 256));
  }

  /** A dynamic block: the bits 0 and 1, the three counts, the code length code, the code lengths, the data and
      the end of the block. */
  lemma {:induction false} DynamicLayout(k: Block, final: bool, pos: nat, out: seq<Cell>)
    requires k.Dynamic? && WritableBlock(k, out)
    requires forall i :: 0 <= i < |k.commands| ==> HasSymbol(CodeLengthCode(k.sent), k.commands[i].Sym())
    ensures BlockBits(k, final, pos, out)
            == [final, false, true] + ToBits(k.nlit - 257, 5) + ToBits(k.ndist - 1, 5) + ToBits(|k.sent| - 4, 4)
               + SentBits(k.sent) + CommandsBits(k.commands, CodeLengthCode(k.sent))
               + TokensBits(k.tokens, LitCode(k), DistCode(k), out) + Encode(LitCode(k), 256)
  {
    hide ToBits, TokensBits, Encode, CommandsBits, SentBits, Complete, LitCode, DistCode, WritableAll, LegalDistances,
         Describes, CodeLengthCode, Described;
    TypeBits(final, 2);
    DynamicBits(k.nlit - 257, k.ndist - 1, |k.sent| - 4);
    Joined([final, false, true], ToBits(k.nlit - 257, 5), ToBits(k.ndist - 1, 5), ToBits(|k.sent| - 4, 4),
           SentBits(k.sent), CommandsBits(k.commands, CodeLengthCode(k.sent)),
           TokensBits(k.tokens, LitCode(k), DistCode(k), out), Encode(LitCode(k), 256));
  }

  /** Lengths of the code length code take three bits each. */
  lemma {:induction false} SentLayout(sent: seq<nat>, i: nat)
    requires i < |sent|
    ensures |SentBits(sent)| == 3 * |sent| && SentBits(sent)[3 * i..3 * i + 3] == ToBits(sent[i], 3)
    decreases |sent|
  {
    hide ToBits;
    var b, more := SentBits(sent), SentBits(sent[1..]);
    if |sent| > 1 {
      SentLayout(sent[1..], if i > 0 then i - 1 else 0);
    }
    if i > 0 {
      assert b[3 * i..3 * i + 3] == more[3 * (i - 1)..3 * (i - 1) + 3];
    }
  }

  /** A stream starts with its first block, whose first bit is set exactly if it is the last one, and goes on
      with the others. */
  lemma {:induction false} StreamLayout(ks: seq<Block>, pos: nat, out: seq<Cell>)
    requires ks != [] && WritableBlocks(ks, out)
    ensures var b, s := BlockBits(ks[0], |ks| == 1, pos, out), StreamBits(ks, pos, out);
            && |s| > 0 && (s[0] <==> |ks| == 1)
            && s == b + StreamBits(ks[1..], pos + |b|, ApplyBlock(ks[0], out))
  {
    hide ToBits, TokensBits, CodesBits, Encode, Complete, WritableAll, LegalDistances, ApplyAll, LitCode, DistCode,
         Codes;
    var k := ks[0];
    TypeBits(|ks| == 1, BlockType(k));
  }

  lemma {:induction false} Joined(a: seq<bool>, b: seq<bool>, c: seq<bool>, d: seq<bool>, e: seq<bool>, f: seq<bool>,
                                  g: seq<bool>, h: seq<bool>)
    ensures a + (b + c + d + e + f + g + h) == a + b + c + d + e + f + g + h
    ensures a + ([] + g + h) == a + g + h
  {
  }

  lemma {:induction false} TypeBits(final: bool, t: nat)
    requires t < 3
    ensures ToBits(Bit(final) + 2 * t, 3) == [final, t == 1, t == 2]
  {
    hide ToBits;
    var x := Bit(final) + 2 * t;
    ToBitsStep(x, 3);
    ToBitsStep(x / 2, 2);
    ToBitsStep(x / 2 / 2, 1);
    assert ToBits(x / 2 / 2 / 2, 0) == [];
  }

  lemma {:induction false} DynamicBits(a: nat, b: nat, c: nat)
    requires a < 32 && b < 32 && c < 16
    ensures ToBits(a + 32 * b + 1024 * c, 14) == ToBits(a, 5) + ToBits(b, 5) + ToBits(c, 4)
  {
    hide ToBits, Pow2;
    Pow2Values();
    BitsAppend(a, b + 32 * c, 5, 9);
    BitsAppend(b, c, 5, 4);
    assert ToBits(a, 5) + (ToBits(b, 5) + ToBits(c, 4)) == ToBits(a, 5) + ToBits(b, 5) + ToBits(c, 4);
  }

  // ----- What is rejected, and what is waited for

  /** The reserved block type. */
  lemma {:induction false} ReservedRejected(s: State, final: bool, rest: seq<bool>)
    requires s.phase == BlockHeader
    ensures Run(s, [final, true, true] + rest) == Failed(ENOTSUP, s.output)
  {
    hide Run, ToBits, Construct, StaticLit, StaticDist;
    var x := Bit(final) + 6;
    ToBitsStep(x, 3);
    ToBitsStep(x / 2, 2);
    ToBitsStep(x / 2 / 2, 1);
    assert ToBits(x, 3) == [final, true, true];
    assert Pow2(3) == 8 by { Pow2Values(); }
    RunFieldFails(s, x, 3, ENOTSUP, rest);
  }

  /** A stored block whose second length is not the complement of the first. */
  lemma {:induction false} LengthsMismatch(s: State, len: nat, nlen: nat, rest: seq<bool>)
    requires s.phase == LiteralLen && len < 0x1_0000 && nlen < 0x1_0000 && len + nlen != 0xffff
    ensures Run(s, ToBits(len, 16) + (ToBits(nlen, 16) + rest)) == Failed(EINVAL, s.output)
  {
    hide Run, ToBits;
    assert Pow2(16) == 0x1_0000 by { Pow2Values(); }
    RunField(s, len, 16, s.(phase := LiteralNlen(len)), ToBits(nlen, 16) + rest);
    RunFieldFails(s.(phase := LiteralNlen(len)), nlen, 16, EINVAL, rest);
  }

  /** A dynamic block whose code length code is not complete. */
  lemma {:induction false} CodeLengthCodeRejected(s: State, rest: seq<bool>)
    requires s.phase.CodeLengthCodes? && |s.phase.sent| == s.phase.target <= 19
    requires !Complete(CodeLengthCode(s.phase.sent))
    ensures Run(s, rest) == Failed(EINVAL, s.output)
  {
    hide Run, Complete, CodeLengthCode, Unscramble, ToBits;
    TransmissionOrder(s.phase.sent);
    PowZero();
    assert ToBits(0, 0) + rest == rest;
    RunFieldFails(s, 0, 0, EINVAL, rest);
  }

  /** A dynamic block whose literal or distance code is not complete, where the last repeat may be longer
      than there is room for and is cut off. */
  lemma {:induction false} LastCommand(s: State, c: Command, rest: seq<bool>)
    requires s.phase.CodeLengths? && Complete(s.phase.codes) && Sendable(c, s.phase.codes)
    requires |s.phase.lens| < s.phase.nlit + s.phase.ndist <= |Extended(c, s.phase.lens, s.phase.prev)|
    ensures var lens := Extended(c, s.phase.lens, s.phase.prev)[..s.phase.nlit + s.phase.ndist];
            var lit, dist := lens[..s.phase.nlit], lens[s.phase.nlit..];
            var dist' := if s.phase.ndist == 1 then [1, 1] else dist;
            Run(s, Encode(s.phase.codes, c.Sym()) + (ToBits(c.Extra(), c.Width()) + rest))
            == if Complete(lit) && Complete(dist') then Run(s.(phase := Symbol(lit, dist')), rest)
               else Failed(EINVAL, s.output)
  {
    hide Run, Encode, ToBits, Pow2, Complete;
    var CodeLengths(nlit, ndist, codes, lens, prev) := s.phase;
    var lens' := Extended(c, lens, prev)[..nlit + ndist];
    var s1 := s.(phase := CodeLengthsExtra(nlit, ndist, codes, lens, c.Value(prev), c.Base(), c.Width()));
    RunSymbol(s, c.Sym(), s1, ToBits(c.Extra(), c.Width()) + rest);
    assert Repeated(s1.phase, c.Extra()) == lens';
    var lit, dist := lens'[..nlit], DistanceCode(lens'[nlit..]);
    if Complete(lit) && Complete(dist) {
      RunField(s1, c.Extra(), c.Width(), s.(phase := Symbol(lit, dist)), rest);
    } else {
      RunFieldFails(s1, c.Extra(), c.Width(), EINVAL, rest);
    }
  }

  /** A match that reaches before the start of the output. */
  lemma {:induction false} FarMatchRejected(s: State, sym: nat, x: nat, rest: seq<bool>)
    requires s.phase.Distance? && Complete(s.phase.dist) && sym < 32 && HasSymbol(s.phase.dist, sym)
    requires x < Pow2(DistanceExtraBits(sym)) && DistanceBase(sym) + x > |s.output|
    ensures Run(s, Encode(s.phase.dist, sym) + (ToBits(x, DistanceExtraBits(sym)) + rest)) == Failed(EINVAL, s.output)
  {
    hide Run, Encode, ToBits, Pow2, Complete, DistanceBase, DistanceExtraBits;
    var Distance(lit, dist, len) := s.phase;
    var s1 := s.(phase := DistanceExtra(lit, dist, len, DistanceBase(sym), DistanceExtraBits(sym)));
    RunSymbol(s, sym, s1, ToBits(x, DistanceExtraBits(sym)) + rest);
    RunFieldFails(s1, x, DistanceExtraBits(sym), EINVAL, rest);
  }

  /** Four bytes are waited for after the last block of a zlib stream, and left for whoever comes next. */
  lemma {:induction false} ChecksumAwaited(s: State, b: seq<bool>)
    requires s.phase == Adler32
    ensures Run(s, b) == if |b| < 32 then Waiting(s, b) else Finished(s.output, b)
  {
    if |b| >= 32 {
      ChecksumEnds(s, b);
    }
  }
}
