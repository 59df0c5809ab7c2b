/** The compressed format from the writer's side: what RFC 1951 lets a compressor write, and the
    proof of which such streams the transducer reads back, and how it ends on the others.

    A compressor is free in how it cuts data into blocks, which matches it uses, which code it
    builds for a block, how it run-length encodes that code and what it pads with, so all these
    choices are part of the description of a stream.
  */
module DeflateFormat {
  import opened Bits
  import opened Huffman
  import opened Lz77
  import opened Inflation
  import opened DeflateTables

  datatype Token =
    | Literal(b: byte)
    /** A match, by its length symbol and extra value and its distance symbol and extra value. */
    | Match(lenSym: nat, lenExtra: nat, distSym: nat, distExtra: nat)
  {
    function Len(): nat requires Match? { LengthBase(lenSym) + lenExtra }
    function Dist(): nat requires Match? { DistanceBase(distSym) + distExtra }
  }

  /** A token that a compressor may write after `n` bytes, with codes that have its symbols. */
  ghost predicate Writable(t: Token, lit: seq<nat>, dist: seq<nat>, n: nat) {
    match t
    case Literal(b) => HasSymbol(lit, b)
    case Match(lenSym, lenExtra, distSym, distExtra) =>
      257 <= lenSym <= 285 && HasSymbol(lit, lenSym) && lenExtra < Pow2(LengthExtraBits(lenSym))
      && distSym < 30 && HasSymbol(dist, distSym) && distExtra < Pow2(DistanceExtraBits(distSym))
      && t.Dist() <= n
  }

  ghost predicate HasSymbol(lens: seq<nat>, sym: nat) {
    sym < |lens| && lens[sym] > 0
  }

  function Apply(t: Token, out: seq<Cell>): seq<Cell>
    requires t.Match? ==> t.Dist() <= |out|
  {
    if t.Literal? then out + [Byte(t.b)] else Duplicate(out, t.Dist(), t.Len())
  }

  ghost function TokenBits(t: Token, lit: seq<nat>, dist: seq<nat>, n: nat): seq<bool>
    requires Writable(t, lit, dist, n)
  {
    match t
    case Literal(b) => Encode(lit, b)
    case Match(lenSym, lenExtra, distSym, distExtra) =>
      Encode(lit, lenSym) + ToBits(lenExtra, LengthExtraBits(lenSym))
      + Encode(dist, distSym) + ToBits(distExtra, DistanceExtraBits(distSym))
  }

  ghost predicate WritableAll(ts: seq<Token>, lit: seq<nat>, dist: seq<nat>, out: seq<Cell>)
    decreases |ts|
  {
    ts == [] || (Writable(ts[0], lit, dist, |out|) && WritableAll(ts[1..], lit, dist, Apply(ts[0], out)))
  }

  /** What tokens stand for after output `out`. */
  ghost function ApplyAll(ts: seq<Token>, lit: seq<nat>, dist: seq<nat>, out: seq<Cell>): seq<Cell>
    requires WritableAll(ts, lit, dist, out)
    decreases |ts|
  {
    if ts == [] then out else ApplyAll(ts[1..], lit, dist, Apply(ts[0], out))
  }

  ghost function TokensBits(ts: seq<Token>, lit: seq<nat>, dist: seq<nat>, out: seq<Cell>): seq<bool>
    requires WritableAll(ts, lit, dist, out)
    decreases |ts|
  {
    if ts == [] then []
    else TokenBits(ts[0], lit, dist, |out|) + TokensBits(ts[1..], lit, dist, Apply(ts[0], out))
  }

  // ----- Reading back fields and symbols

  lemma {:induction false} RunField(s: State, x: nat, n: nat, s': State, rest: seq<bool>)
    requires !IsCoded(s.phase) && FieldBits(s.phase) == n && x < Pow2(n)
    requires OnField(s, x, n, |rest|) == Next(s', n)
    ensures Run(s, ToBits(x, n) + rest) == Run(s', rest)
  {
    hide Run, OnField, ToBits, Pow2, Lsb;
    var b := ToBits(x, n) + rest;
    assert b[..n] == ToBits(x, n) && b[n..] == rest;
    LsbToBits(x, n);
    RunNext(s, b, s', n);
  }

  lemma {:induction false} RunFieldFails(s: State, x: nat, n: nat, e: Error, rest: seq<bool>)
    requires !IsCoded(s.phase) && FieldBits(s.phase) == n && x < Pow2(n)
    requires OnField(s, x, n, |rest|) == Fail(e)
    ensures Run(s, ToBits(x, n) + rest) == Failed(e, s.output)
  {
    hide OnField, ToBits, Pow2, Lsb;
    var b := ToBits(x, n) + rest;
    assert b[..n] == ToBits(x, n);
    LsbToBits(x, n);
  }

  lemma {:induction false} RunSymbol(s: State, sym: nat, s': State, rest: seq<bool>)
    requires IsCoded(s.phase) && Complete(CodeOf(s.phase)) && HasSymbol(CodeOf(s.phase), sym)
    requires OnSymbol(s, sym, CodeOf(s.phase)[sym], |rest|) == Next(s', CodeOf(s.phase)[sym])
    ensures Run(s, Encode(CodeOf(s.phase), sym) + rest) == Run(s', rest)
  {
    hide Run, OnSymbol, Encode, Decode, Complete;
    var n := CodeOf(s.phase)[sym];
    var b := Encode(CodeOf(s.phase), sym) + rest;
    DecodeEncode(CodeOf(s.phase), sym, rest);
    assert b[n..] == rest;
    RunNext(s, b, s', n);
  }

  // ----- Reading back tokens

  lemma {:induction false} RunToken(s: State, t: Token, rest: seq<bool>)
    requires s.phase.Symbol? && Complete(s.phase.lit) && Complete(s.phase.dist)
    requires Writable(t, s.phase.lit, s.phase.dist, |s.output|)
    ensures Run(s, TokenBits(t, s.phase.lit, s.phase.dist, |s.output|) + rest)
            == Run(s.(output := Apply(t, s.output)), rest)
  {
    hide Run, Encode, ToBits, Pow2, Complete, Duplicate, LengthBase, LengthExtraBits, DistanceBase, DistanceExtraBits;
    var Symbol(lit, dist) := s.phase;
    match t
    case Literal(b) =>
      RunSymbol(s, b, s.(output := s.output + [Byte(b)]), rest);
    case Match(lenSym, lenExtra, distSym, distExtra) =>
      var lx, dx := LengthExtraBits(lenSym), DistanceExtraBits(distSym);
      var b3 := ToBits(distExtra, dx) + rest;
      var b2 := Encode(dist, distSym) + b3;
      var b1 := ToBits(lenExtra, lx) + b2;
      var s1 := s.(phase := LengthExtra(lit, dist, LengthBase(lenSym), lx));
      var s2 := s.(phase := Distance(lit, dist, t.Len()));
      var s3 := s.(phase := DistanceExtra(lit, dist, t.Len(), DistanceBase(distSym), dx));
      assert TokenBits(t, lit, dist, |s.output|) + rest == Encode(lit, lenSym) + b1;
      RunSymbol(s, lenSym, s1, b1);
      RunField(s1, lenExtra, lx, s2, b2);
      RunSymbol(s2, distSym, s3, b3);
      RunField(s3, distExtra, dx, s.(output := Duplicate(s.output, t.Dist(), t.Len())), rest);
  }

  lemma {:induction false} RunTokens(s: State, ts: seq<Token>, rest: seq<bool>)
    requires s.phase.Symbol? && Complete(s.phase.lit) && Complete(s.phase.dist)
    requires WritableAll(ts, s.phase.lit, s.phase.dist, s.output)
    ensures Run(s, TokensBits(ts, s.phase.lit, s.phase.dist, s.output) + rest)
            == Run(s.(output := ApplyAll(ts, s.phase.lit, s.phase.dist, s.output)), rest)
    decreases |ts|
  {
    hide Run, TokenBits, Apply, Complete;
    var lit, dist := s.phase.lit, s.phase.dist;
    var bits := TokensBits(ts, lit, dist, s.output);
    if ts == [] {
      assert bits + rest == rest;
    } else {
      var s' := s.(output := Apply(ts[0], s.output));
      var more := TokensBits(ts[1..], lit, dist, s'.output) + rest;
      assert bits + rest == TokenBits(ts[0], lit, dist, |s.output|) + more;
      RunToken(s, ts[0], more);
      RunTokens(s', ts[1..], rest);
    }
  }

  // ----- Code lengths

  /** A code length symbol with its extra value. */
  datatype Command = Single(len: nat) | Again(x: nat) | Zeros(x: nat) | ManyZeros(x: nat)
  {
    function Sym(): nat {
      match this case Single(len) => len case Again(_) => 16 case Zeros(_) => 17 case ManyZeros(_) => 18
    }
    function Width(): nat {
      match this case Single(_) => 0 case Again(_) => 2 case Zeros(_) => 3 case ManyZeros(_) => 7
    }
    function Extra(): nat {
      match this case Single(_) => 0 case Again(x) => x case Zeros(x) => x case ManyZeros(x) => x
    }
    function Base(): nat {
      match this case Single(_) => 1 case Again(_) => 3 case Zeros(_) => 3 case ManyZeros(_) => 11
    }
    function Value(prev: nat): nat {
      match this case Single(len) => len case Again(_) => prev case Zeros(_) => 0 case ManyZeros(_) => 0
    }
  }

  ghost predicate Sendable(c: Command, codes: seq<nat>) {
    (c.Single? ==> c.len <= 15) && HasSymbol(codes, c.Sym()) && c.Extra() < Pow2(c.Width())
  }

  /** Code lengths after a command. */
  function Extended(c: Command, lens: seq<nat>, prev: nat): seq<nat> {
    lens + Repeat(c.Value(prev), c.Base() + c.Extra())
  }

  /** Commands that bring the code lengths to exactly `total`. */
  ghost predicate Describes(cs: seq<Command>, codes: seq<nat>, lens: seq<nat>, prev: nat, total: nat)
    decreases |cs|
  {
    cs != [] && Sendable(cs[0], codes)
    && var lens' := Extended(cs[0], lens, prev);
       if |cs| == 1 then |lens'| == total
       else |lens'| < total && Describes(cs[1..], codes, lens', cs[0].Value(prev), total)
  }

  function Described(cs: seq<Command>, lens: seq<nat>, prev: nat): seq<nat>
    decreases |cs|
  {
    if cs == [] then lens else Described(cs[1..], Extended(cs[0], lens, prev), cs[0].Value(prev))
  }

  ghost function CommandsBits(cs: seq<Command>, codes: seq<nat>): seq<bool>
    requires forall i :: 0 <= i < |cs| ==> HasSymbol(codes, cs[i].Sym())
  {
    if cs == [] then []
    else
      assert HasSymbol(codes, cs[0].Sym());
      Encode(codes, cs[0].Sym()) + ToBits(cs[0].Extra(), cs[0].Width()) + CommandsBits(cs[1..], codes)
  }

  lemma {:induction false} DescribesSymbols(cs: seq<Command>, codes: seq<nat>, lens: seq<nat>, prev: nat, total: nat)
    requires Describes(cs, codes, lens, prev, total)
    ensures forall i :: 0 <= i < |cs| ==> HasSymbol(codes, cs[i].Sym())
    decreases |cs|
  {
    if |cs| > 1 {
      DescribesSymbols(cs[1..], codes, Extended(cs[0], lens, prev), cs[0].Value(prev), total);
    }
  }

  lemma {:induction false} DescribedLength(cs: seq<Command>, codes: seq<nat>, lens: seq<nat>, prev: nat, total: nat)
    requires Describes(cs, codes, lens, prev, total)
    ensures |Described(cs, lens, prev)| == total
    decreases |cs|
  {
    if |cs| > 1 {
      DescribedLength(cs[1..], codes, Extended(cs[0], lens, prev), cs[0].Value(prev), total);
    }
  }

  /** What happens once all code lengths of a block are known. */
  ghost function AfterCodes(s: State, lit: seq<nat>, dist: seq<nat>, rest: seq<bool>): Outcome {
    if Complete(lit) && Complete(DistanceCode(dist)) then
      Run(s.(phase := Symbol(lit, DistanceCode(dist))), rest)
    else Failed(EINVAL, s.output)
  }

  /** One command leads to the next, or to the data once all code lengths are known. */
  ghost function AfterCommand(s: State, lens: seq<nat>, value: nat, rest: seq<bool>): Outcome
    requires s.phase.CodeLengths? && |lens| <= s.phase.nlit + s.phase.ndist
  {
    var CodeLengths(nlit, ndist, codes, _, _) := s.phase;
    if |lens| < nlit + ndist then Run(s.(phase := CodeLengths(nlit, ndist, codes, lens, value)), rest)
    else AfterCodes(s, lens[..nlit], lens[nlit..], rest)
  }

  lemma {:induction false} RunCommand(s: State, c: Command, rest: seq<bool>)
    requires s.phase.CodeLengths? && Complete(s.phase.codes) && Sendable(c, s.phase.codes)
    requires |s.phase.lens| < s.phase.nlit + s.phase.ndist
    requires |Extended(c, s.phase.lens, s.phase.prev)| <= s.phase.nlit + s.phase.ndist
    ensures Run(s, Encode(s.phase.codes, c.Sym()) + (ToBits(c.Extra(), c.Width()) + rest))
            == AfterCommand(s, Extended(c, s.phase.lens, s.phase.prev), c.Value(s.phase.prev), rest)
  {
    hide Run, Encode, ToBits, Pow2, Complete, DistanceCode;
    var CodeLengths(nlit, ndist, codes, lens, prev) := s.phase;
    var lens' := Extended(c, lens, prev);
    var s1 := s.(phase := CodeLengthsExtra(nlit, ndist, codes, lens, c.Value(prev), c.Base(), c.Width()));
    RunSymbol(s, c.Sym(), s1, ToBits(c.Extra(), c.Width()) + rest);
    assert Repeated(s1.phase, c.Extra()) == lens';
    if |lens'| < nlit + ndist {
      RunField(s1, c.Extra(), c.Width(), s.(phase := CodeLengths(nlit, ndist, codes, lens', c.Value(prev))), rest);
    } else if Complete(lens'[..nlit]) && Complete(DistanceCode(lens'[nlit..])) {
      RunField(s1, c.Extra(), c.Width(), s.(phase := Symbol(lens'[..nlit], DistanceCode(lens'[nlit..]))), rest);
    } else {
      RunFieldFails(s1, c.Extra(), c.Width(), EINVAL, rest);
    }
  }

  lemma {:induction false} RunCommands(s: State, cs: seq<Command>, rest: seq<bool>)
    requires s.phase.CodeLengths? && Complete(s.phase.codes) && |s.phase.lens| < s.phase.nlit + s.phase.ndist
    requires Describes(cs, s.phase.codes, s.phase.lens, s.phase.prev, s.phase.nlit + s.phase.ndist)
    requires forall i :: 0 <= i < |cs| ==> HasSymbol(s.phase.codes, cs[i].Sym())
    requires |Described(cs, s.phase.lens, s.phase.prev)| == s.phase.nlit + s.phase.ndist
    ensures var lens := Described(cs, s.phase.lens, s.phase.prev);
            Run(s, CommandsBits(cs, s.phase.codes) + rest)
            == AfterCodes(s, lens[..s.phase.nlit], lens[s.phase.nlit..], rest)
    decreases |cs|
  {
    hide Run, Encode, ToBits, Pow2, Complete, DistanceCode, Extended;
    var CodeLengths(nlit, ndist, codes, lens, prev) := s.phase;
    var c := cs[0];
    var more := CommandsBits(cs[1..], codes) + rest;
    assert CommandsBits(cs, codes) + rest == Encode(codes, c.Sym()) + (ToBits(c.Extra(), c.Width()) + more);
    RunCommand(s, c, more);
    if |cs| > 1 {
      RunCommands(s.(phase := CodeLengths(nlit, ndist, codes, Extended(c, lens, prev), c.Value(prev))), cs[1..], rest);
    } else {
      assert cs[1..] == [];
      assert more == rest;
    }
  }

  /** Section 3.2.7 of RFC 1951, the place of a code length symbol in the order of transmission: the three
      repeat codes, zero, and then 8, 7, 9, 6 and so on outwards. */
  function PlaceOf(sym: nat): nat
    requires sym < 19
  {
    if sym >= 16 then sym - 16 else if sym == 0 then 3 else if sym >= 8 then 2 * sym - 12 else 19 - 2 * sym
  }

  /** The code length code that a compressor describes by the lengths it sends, in that order. */
  function CodeLengthCode(sent: seq<nat>): (codes: seq<nat>)
    ensures |codes| == 19
  {
    seq(19, j requires 0 <= j < 19 => if PlaceOf(j) < |sent| then sent[PlaceOf(j)] else 0)
  }

  /** What is sent in each place, symbol by symbol, and what is not sent is zero. */
  lemma {:induction false} TransmissionOrder(sent: seq<nat>)
    requires |sent| <= 19
    ensures CodeLengthCode(sent) == Unscramble(sent, 19)
    ensures var c := Unscramble(sent, 19);
            && c[16] == (if |sent| > 0 then sent[0] else 0) && c[17] == (if |sent| > 1 then sent[1] else 0)
            && c[18] == (if |sent| > 2 then sent[2] else 0) && c[0] == (if |sent| > 3 then sent[3] else 0)
    ensures forall k :: 0 <= k < 8 ==> Unscramble(sent, 19)[8 + k] == if 4 + 2 * k < |sent| then sent[4 + 2 * k] else 0
    ensures forall k :: 0 <= k < 7 ==> Unscramble(sent, 19)[7 - k] == if 5 + 2 * k < |sent| then sent[5 + 2 * k] else 0
  {
  }

  ghost function SentBits(sent: seq<nat>): seq<bool> {
    if sent == [] then [] else ToBits(sent[0], 3) + SentBits(sent[1..])
  }

  lemma {:induction false} RunSent(s: State, sent: seq<nat>, rest: seq<bool>)
    requires s.phase.CodeLengthCodes? && |s.phase.sent| + |sent| == s.phase.target
    requires forall i :: 0 <= i < |sent| ==> sent[i] < 8
    requires Complete(Unscramble(s.phase.sent + sent, 19))
    ensures Run(s, SentBits(sent) + rest)
            == Run(s.(phase := CodeLengths(s.phase.nlit, s.phase.ndist,
                                           Unscramble(s.phase.sent + sent, 19), [], 0)), rest)
    decreases |sent|
  {
    hide Run, ToBits, Pow2, Complete, Unscramble, Lsb;
    var CodeLengthCodes(nlit, ndist, target, before) := s.phase;
    if sent == [] {
      assert before + sent == before;
      assert SentBits(sent) + rest == rest;
      assert ToBits(0, 0) == [];
      assert ToBits(0, 0) + rest == rest;
      RunField(s, 0, 0, s.(phase := CodeLengths(nlit, ndist, Unscramble(before, 19), [], 0)), rest);
    } else {
      var s' := s.(phase := CodeLengthCodes(nlit, ndist, target, before + [sent[0]]));
      assert SentBits(sent) + rest == ToBits(sent[0], 3) + (SentBits(sent[1..]) + rest);
      assert Pow2(3) == 8 by { Pow2Values(); }
      RunField(s, sent[0], 3, s', SentBits(sent[1..]) + rest);
      assert before + [sent[0]] + sent[1..] == before + sent;
      RunSent(s', sent[1..], rest);
    }
  }

  // ----- Blocks

  datatype Block =
    /** As many bits of `fill` are written as there are before the next byte boundary. */
    | Stored(fill: seq<bool>, data: seq<byte>)
    | Static(tokens: seq<Token>)
    | Dynamic(nlit: nat, ndist: nat, sent: seq<nat>, commands: seq<Command>, tokens: seq<Token>)

  /** The codes of a compressed block, as the compressor declares them. */
  function LitCode(k: Block): seq<nat>
    requires !k.Stored?
  {
    if k.Static? then StaticLit() else Prefix(Described(k.commands, [], 0), k.nlit)
  }

  function DistCode(k: Block): seq<nat>
    requires !k.Stored?
  {
    if k.Static? then StaticDist() else Suffix(Described(k.commands, [], 0), k.nlit)
  }

  function Prefix(s: seq<nat>, n: nat): seq<nat> {
    if n <= |s| then s[..n] else s
  }

  function Suffix(s: seq<nat>, n: nat): seq<nat> {
    if n <= |s| then s[n..] else []
  }

  /** A well-formed description of a dynamic block's codes. */
  ghost predicate Codes(nlit: nat, ndist: nat, sent: seq<nat>, commands: seq<Command>) {
    257 <= nlit <= 288 && 1 <= ndist <= 32 && 4 <= |sent| <= 19
    && (forall i :: 0 <= i < |sent| ==> sent[i] < 8)
    && Complete(CodeLengthCode(sent)) && Describes(commands, CodeLengthCode(sent), [], 0, nlit + ndist)
  }

  /** Only one distance code is used, and it has one bit. */
  ghost predicate SingleCode(dist: seq<nat>) {
    exists sym :: 0 <= sym < |dist| && dist[sym] == 1 && forall i :: 0 <= i < |dist| && i != sym ==> dist[i] == 0
  }

  /** No distance code is used. */
  ghost predicate NoCode(dist: seq<nat>) {
    forall i :: 0 <= i < |dist| ==> dist[i] == 0
  }

  /** Section 3.2.7 of RFC 1951 lets the distance code be incomplete if at most one code is used. */
  ghost predicate LegalDistances(dist: seq<nat>) {
    Complete(dist) || SingleCode(dist) || NoCode(dist)
  }

  /** A block that RFC 1951 lets a compressor write after output `out`. */
  ghost predicate WritableBlock(k: Block, out: seq<Cell>) {
    if k.Stored? then |k.data| < 0x1_0000 && |k.fill| == 7
    else
      (k.Dynamic? ==> Codes(k.nlit, k.ndist, k.sent, k.commands))
      && Complete(LitCode(k)) && LegalDistances(DistCode(k))
      && HasSymbol(LitCode(k), 256) && WritableAll(k.tokens, LitCode(k), DistCode(k), out)
  }

  /** A block that the decompressor reads: not a dynamic one that declares two or more distance
      codes without using enough of them. */
  ghost predicate Accepted(k: Block) {
    k.Dynamic? && k.ndist >= 2 ==> Complete(DistCode(k))
  }

  ghost function ApplyBlock(k: Block, out: seq<Cell>): seq<Cell>
    requires WritableBlock(k, out)
  {
    if k.Stored? then out + Bytes(k.data) else ApplyAll(k.tokens, LitCode(k), DistCode(k), out)
  }

  /** The part of a block that describes its codes. */
  ghost function CodesBits(k: Block): seq<bool>
    requires k.Dynamic? ==> Codes(k.nlit, k.ndist, k.sent, k.commands)
  {
    if !k.Dynamic? then []
    else
      DescribesSymbols(k.commands, CodeLengthCode(k.sent), [], 0, k.nlit + k.ndist);
      ToBits(k.nlit - 257 + 32 * (k.ndist - 1) + 1024 * (|k.sent| - 4), 14)
      + SentBits(k.sent) + CommandsBits(k.commands, CodeLengthCode(k.sent))
  }

  /** Bits that fill up the byte in which position `pos` lies. */
  function Padding(fill: seq<bool>, pos: nat): (b: seq<bool>)
    requires |fill| == 7
    ensures |b| == (8 - pos % 8) % 8
  {
    fill[..(8 - pos % 8) % 8]
  }

  function BlockType(k: Block): nat {
    match k case Stored(_, _) => 0 case Static(_) => 1 case Dynamic(_, _, _, _, _) => 2
  }

  /** The bits of a block that starts at bit position `pos` of the stream. */
  ghost function BlockBits(k: Block, final: bool, pos: nat, out: seq<Cell>): seq<bool>
    requires WritableBlock(k, out)
  {
    ToBits(Bit(final) + 2 * BlockType(k), 3)
    + if k.Stored? then
        Padding(k.fill, pos + 3) + ToBits(|k.data|, 16) + ToBits(0xffff - |k.data|, 16) + BytesToBits(k.data)
      else
        CodesBits(k) + TokensBits(k.tokens, LitCode(k), DistCode(k), out) + Encode(LitCode(k), 256)
  }

  /** What happens at the end of a block with this much output and `rest` still to come. */
  ghost function AfterBlock(format: Format, final: bool, output: seq<Cell>, rest: seq<bool>): Outcome {
    if !final then Run(State(BlockHeader, format, final, output), rest)
    else if format == Raw then Finished(output, rest)
    else Run(State(Adler32, format, final, output), rest[|rest| % 8..])
  }

  lemma {:induction false} RunEnd(s: State, rest: seq<bool>)
    requires s.phase.Symbol? && Complete(s.phase.lit) && HasSymbol(s.phase.lit, 256)
    ensures Run(s, Encode(s.phase.lit, 256) + rest) == AfterBlock(s.format, s.final, s.output, rest)
  {
    hide Encode, Decode, Complete, Run;
    var n := s.phase.lit[256];
    var b := Encode(s.phase.lit, 256) + rest;
    DecodeEncode(s.phase.lit, 256, rest);
    assert b[n..] == rest;
    assert Step(s, b) == BlockDone(s, n, |rest|);
    RunBlockDone(s, b, n, rest);
  }

  /** What a step at the end of a block leads to. */
  lemma {:induction false} RunBlockDone(s: State, b: seq<bool>, n: nat, rest: seq<bool>)
    requires Step(s, b) == BlockDone(s, n, |rest|) && |b| == n + |rest| && b[n..] == rest
    ensures Run(s, b) == AfterBlock(s.format, s.final, s.output, rest)
  {
    hide Step, Run;
    if !s.final {
      RunNext(s, b, s.(phase := BlockHeader), n);
    } else if s.format == Zlib {
      assert b[n + |rest| % 8..] == rest[|rest| % 8..];
      RunNext(s, b, s.(phase := Adler32), n + |rest| % 8);
    } else {
      assert b[|b| - |rest|..] == rest;
      RunDone(s, b, |rest|);
    }
  }

  lemma {:induction false} RunDone(s: State, b: seq<bool>, left: nat)
    requires Step(s, b) == Done(left)
    ensures left <= |b| && Run(s, b) == Finished(s.output, b[|b| - left..])
  {
    hide Step;
    StepProgress(s, b);
  }

  lemma {:induction false} RunCompressed(s: State, k: Block, rest: seq<bool>)
    requires !k.Stored? && WritableBlock(k, s.output) && Complete(DistanceCode(DistCode(k)))
    requires s.phase == Symbol(LitCode(k), DistanceCode(DistCode(k)))
    ensures Run(s, TokensBits(k.tokens, LitCode(k), DistCode(k), s.output) + Encode(LitCode(k), 256) + rest)
            == AfterBlock(s.format, s.final, ApplyBlock(k, s.output), rest)
  {
    hide Run, Complete, Encode, TokensBits, ApplyAll, WritableAll, LitCode, DistCode, AfterBlock, LegalDistances,
         DistanceCode;
    var t := TokensBits(k.tokens, LitCode(k), DistCode(k), s.output);
    assert t + Encode(LitCode(k), 256) + rest == t + (Encode(LitCode(k), 256) + rest);
    PatchedTokens(k.tokens, LitCode(k), DistCode(k), s.output);
    RunTokens(s, k.tokens, Encode(LitCode(k), 256) + rest);
    RunEnd(s.(output := ApplyBlock(k, s.output)), rest);
  }

  /** Where a single distance code is replaced by two, the code that is used stays the same. */
  lemma {:induction false} PatchedTokens(ts: seq<Token>, lit: seq<nat>, dist: seq<nat>, out: seq<Cell>)
    requires WritableAll(ts, lit, dist, out) && LegalDistances(dist)
    ensures WritableAll(ts, lit, DistanceCode(dist), out)
    ensures TokensBits(ts, lit, DistanceCode(dist), out) == TokensBits(ts, lit, dist, out)
    ensures ApplyAll(ts, lit, DistanceCode(dist), out) == ApplyAll(ts, lit, dist, out)
    decreases |ts|
  {
    hide Complete, Apply, Encode, LegalDistances;
    if ts != [] {
      PatchedToken(ts[0], lit, dist, |out|);
      PatchedTokens(ts[1..], lit, dist, Apply(ts[0], out));
    }
  }

  lemma {:induction false} PatchedToken(t: Token, lit: seq<nat>, dist: seq<nat>, n: nat)
    requires Writable(t, lit, dist, n) && LegalDistances(dist)
    ensures Writable(t, lit, DistanceCode(dist), n)
    ensures TokenBits(t, lit, DistanceCode(dist), n) == TokenBits(t, lit, dist, n)
  {
    hide Complete, Encode, LengthBase, LengthExtraBits, DistanceBase, DistanceExtraBits, ToBits, Pow2;
    if |dist| == 1 && t.Match? {
      OneIsIncomplete(dist);
      assert dist == [1];
      EncodeSingle(dist);
      EncodeSingle([1, 1]);
    }
  }

  lemma {:induction false} EncodeSingle(dist: seq<nat>)
    requires |dist| > 0 && dist[0] == 1
    ensures Encode(dist, 0) == ToBitsMsb(0, 1)
  {
  }

  /** A single code cannot be complete. */
  lemma {:induction false} OneIsIncomplete(dist: seq<nat>)
    requires |dist| == 1
    ensures !Complete(dist)
  {
    if Lengths(dist) {
      assert dist[..0] == [];
      KraftSnoc(dist);
      if dist[0] > 0 {
        Pow2Monotone(15 - dist[0], 14);
      }
      Pow2Values();
    }
  }

  lemma {:induction false} KraftSnoc(lens: seq<nat>)
    requires Lengths(lens) && lens != []
    ensures var m := |lens| - 1;
            Lengths(lens[..m]) && Kraft(lens) == Kraft(lens[..m]) + if lens[m] == 0 then 0 else Pow2(15 - lens[m])
  {
  }

  /** With at most one code of one bit there is at most half of a complete code. */
  lemma {:induction false} SparseKraft(dist: seq<nat>, sym: nat)
    requires forall i :: 0 <= i < |dist| ==> dist[i] == 0 || (dist[i] == 1 && i == sym)
    ensures Lengths(dist) && Kraft(dist) == if sym < |dist| && dist[sym] == 1 then 0x4000 else 0
  {
    if dist != [] {
      SparseKraft(dist[..|dist| - 1], sym);
      KraftSnoc(dist);
      Pow2Values();
    }
  }

  /** Legal distance codes are complete exactly if more than one code is used, so the condition for
      acceptance can be read off the lengths. */
  lemma {:induction false} SparseIncomplete(dist: seq<nat>)
    requires LegalDistances(dist)
    ensures Complete(dist) <==> !SingleCode(dist) && !NoCode(dist)
  {
    if SingleCode(dist) {
      var sym :| 0 <= sym < |dist| && dist[sym] == 1 && forall i :: 0 <= i < |dist| && i != sym ==> dist[i] == 0;
      SparseKraft(dist, sym);
    } else if NoCode(dist) {
      SparseKraft(dist, |dist|);
    }
  }

  /** The decompressor has a complete distance code exactly if it accepts the block. */
  lemma {:induction false} AcceptedComplete(k: Block)
    requires !k.Stored? && (k.Dynamic? ==> Codes(k.nlit, k.ndist, k.sent, k.commands))
    ensures Accepted(k) <==> Complete(DistanceCode(DistCode(k)))
  {
    hide Complete, Described, Describes, CodeLengthCode;
    if k.Dynamic? {
      DescribedLength(k.commands, CodeLengthCode(k.sent), [], 0, k.nlit + k.ndist);
      TwoComplete();
    } else {
      StaticComplete();
    }
  }

  lemma {:induction false} TwoComplete()
    ensures Complete([1, 1])
  {
    hide Kraft;
    KraftRepeat(1, 2);
    assert Repeat(1, 2) == [1, 1];
    Pow2Values();
  }

  // ----- Reading back blocks

  /** The bits that remain before a byte boundary, counted from either end of the stream. */
  lemma {:induction false} PaddingFills(fill: seq<bool>, pos: nat, left: nat)
    requires (pos + left) % 8 == 0 && |fill| == 7
    ensures |Padding(fill, pos)| == left % 8
  {
    hide Padding;
    UpToBoundary(pos, left);
  }

  lemma {:induction false} UpToBoundary(pos: nat, left: nat)
    requires (pos + left) % 8 == 0
    ensures (8 - pos % 8) % 8 == left % 8
  {
    var a, b := pos / 8, left / 8;
    assert pos == 8 * a + pos % 8 && left == 8 * b + left % 8;
    var c := (pos + left) / 8;
    assert pos % 8 + left % 8 == 8 * (c - a - b);
  }

  lemma {:induction false} RunBlockHeader(s: State, x: nat, s': State, rest: seq<bool>)
    requires s.phase == BlockHeader && x < 8 && OnBlockHeader(s, x, 3, |rest|) == Next(s', 3)
    ensures Run(s, ToBits(x, 3) + rest) == Run(s', rest)
  {
    hide Run, OnBlockHeader, ToBits, Pow2;
    assert Pow2(3) == 8 by { Pow2Values(); }
    RunField(s, x, 3, s', rest);
  }

  lemma {:induction false} RunStoredHeader(s: State, final: bool, fill: seq<bool>, pos: nat, body: seq<bool>)
    requires s.phase == BlockHeader && |fill| == 7 && (pos + 3 + |Padding(fill, pos + 3)| + |body|) % 8 == 0
    ensures Run(s, ToBits(Bit(final), 3) + (Padding(fill, pos + 3) + body))
            == Run(s.(phase := LiteralLen, final := final), body)
  {
    hide Run, Step, ToBits, Padding, Lsb, Pow2;
    var pad := Padding(fill, pos + 3);
    var b := ToBits(Bit(final), 3) + (pad + body);
    PaddingFills(fill, pos + 3, |pad| + |body|);
    assert Pow2(3) == 8 by { Pow2Values(); }
    LsbToBits(Bit(final), 3);
    assert b[..3] == ToBits(Bit(final), 3);
    assert b[3 + |pad|..] == body;
    StepStored(s, final, b);
    RunNext(s, b, s.(phase := LiteralLen, final := final), 3 + |pad|);
  }

  lemma {:induction false} StepStored(s: State, final: bool, b: seq<bool>)
    requires s.phase == BlockHeader && |b| >= 3 && Lsb(b[..3]) == Bit(final)
    ensures Step(s, b) == Next(s.(phase := LiteralLen, final := final), 3 + (|b| - 3) % 8)
  {
    hide Lsb, Complete, StaticLit, StaticDist;
  }

  lemma {:induction false} RunStored(s: State, data: seq<byte>, rest: seq<bool>)
    requires s.phase == LiteralLen && |data| < 0x1_0000
    ensures Run(s, ToBits(|data|, 16) + (ToBits(0xffff - |data|, 16) + (BytesToBits(data) + rest)))
            == AfterBlock(s.format, s.final, s.output + Bytes(data), rest)
  {
    hide Run, ToBits, Pow2, BytesToBits;
    var b2 := BytesToBits(data) + rest;
    var b1 := ToBits(0xffff - |data|, 16) + b2;
    assert Pow2(16) == 0x1_0000 by { Pow2Values(); }
    var s1 := s.(phase := LiteralNlen(|data|));
    var s2 := s.(phase := LiteralData(|data|));
    RunField(s, |data|, 16, s1, b1);
    RunField(s1, 0xffff - |data|, 16, s2, b2);
    RunLiteral(s2, data, rest);
    LiteralEnd(s.(phase := LiteralData(0), output := s.output + Bytes(data)), rest);
  }

  lemma {:induction false} LiteralEnd(s: State, rest: seq<bool>)
    requires s.phase == LiteralData(0)
    ensures Run(s, rest) == AfterBlock(s.format, s.final, s.output, rest)
  {
    hide Run;
    assert Step(s, rest) == BlockDone(s, 0, |rest|);
    assert rest[0..] == rest;
    RunBlockDone(s, rest, 0, rest);
  }

  lemma {:induction false} RunDynamicHeader(s: State, k: Block, rest: seq<bool>)
    requires s.phase == DynamicHeader && k.Dynamic? && Codes(k.nlit, k.ndist, k.sent, k.commands)
    ensures Run(s, CodesBits(k) + rest) == AfterCodes(s, LitCode(k), DistCode(k), rest)
  {
    hide Run, ToBits, Pow2, Complete, Encode, CommandsBits, SentBits, CodeLengthCode, Described, Describes,
         DistanceCode, Unscramble;
    var codes := CodeLengthCode(k.sent);
    DescribesSymbols(k.commands, codes, [], 0, k.nlit + k.ndist);
    DescribedLength(k.commands, codes, [], 0, k.nlit + k.ndist);
    var x := k.nlit - 257 + 32 * (k.ndist - 1) + 1024 * (|k.sent| - 4);
    DynamicFields(k.nlit, k.ndist, |k.sent|);
    var b2 := CommandsBits(k.commands, codes) + rest;
    var b1 := SentBits(k.sent) + b2;
    assert CodesBits(k) + rest == ToBits(x, 14) + b1;
    var s1 := s.(phase := CodeLengthCodes(k.nlit, k.ndist, |k.sent|, []));
    var s2 := s.(phase := CodeLengths(k.nlit, k.ndist, codes, [], 0));
    RunField(s, x, 14, s1, b1);
    assert [] + k.sent == k.sent;
    assert codes == Unscramble(k.sent, 19) by { TransmissionOrder(k.sent); }
    RunSent(s1, k.sent, b2);
    RunCommands(s2, k.commands, rest);
  }

  lemma {:induction false} DynamicFields(nlit: nat, ndist: nat, nsent: nat)
    requires 257 <= nlit <= 288 && 1 <= ndist <= 32 && 4 <= nsent <= 19
    ensures var x := nlit - 257 + 32 * (ndist - 1) + 1024 * (nsent - 4);
            x < Pow2(14) && x % 32 + 257 == nlit && (x / 32) % 32 + 1 == ndist && (x / 1024) % 16 + 4 == nsent
  {
    Pow2Values();
  }

  /** A block is read back to what it stands for, or rejected for its distance code. */
  ghost function BlockOutcome(s: State, k: Block, final: bool, rest: seq<bool>): Outcome
    requires WritableBlock(k, s.output)
  {
    if Accepted(k) then AfterBlock(s.format, final, ApplyBlock(k, s.output), rest) else Failed(EINVAL, s.output)
  }

  lemma {:induction false} RunBlock(s: State, k: Block, final: bool, pos: nat, rest: seq<bool>)
    requires s.phase == BlockHeader && WritableBlock(k, s.output)
    requires (pos + |BlockBits(k, final, pos, s.output)| + |rest|) % 8 == 0
    ensures Run(s, BlockBits(k, final, pos, s.output) + rest) == BlockOutcome(s, k, final, rest)
  {
    if k.Stored? {
      RunStoredBlock(s, k, final, pos, rest);
    } else {
      RunCompressedBlock(s, k, final, pos, rest);
    }
  }

  lemma {:induction false} RunStoredBlock(s: State, k: Block, final: bool, pos: nat, rest: seq<bool>)
    requires s.phase == BlockHeader && k.Stored? && WritableBlock(k, s.output)
    requires (pos + |BlockBits(k, final, pos, s.output)| + |rest|) % 8 == 0
    ensures Run(s, BlockBits(k, final, pos, s.output) + rest)
            == AfterBlock(s.format, final, ApplyBlock(k, s.output), rest)
  {
    hide Run, ToBits, Padding, BytesToBits, AfterBlock;
    var body := ToBits(|k.data|, 16) + (ToBits(0xffff - |k.data|, 16) + (BytesToBits(k.data) + rest));
    assert BlockBits(k, final, pos, s.output) + rest == ToBits(Bit(final), 3) + (Padding(k.fill, pos + 3) + body);
    RunStoredHeader(s, final, k.fill, pos, body);
    RunStored(s.(phase := LiteralLen, final := final), k.data, rest);
  }

  lemma {:induction false} RunCompressedBlock(s: State, k: Block, final: bool, pos: nat, rest: seq<bool>)
    requires s.phase == BlockHeader && !k.Stored? && WritableBlock(k, s.output)
    ensures Run(s, BlockBits(k, final, pos, s.output) + rest) == BlockOutcome(s, k, final, rest)
  {
    hide Run, ToBits, AfterBlock, TokensBits, Encode, CodesBits, Complete, LitCode, DistCode, WritableAll, Codes,
         ApplyAll, LegalDistances, DistanceCode, Accepted;
    var t := TokensBits(k.tokens, LitCode(k), DistCode(k), s.output) + Encode(LitCode(k), 256) + rest;
    var x := Bit(final) + 2 * BlockType(k);
    assert BlockBits(k, final, pos, s.output) + rest == ToBits(x, 3) + (CodesBits(k) + t);
    var s' := s.(phase := Symbol(LitCode(k), DistanceCode(DistCode(k))), final := final);
    AcceptedComplete(k);
    if k.Static? {
      StaticCodes(k);
      RunBlockHeader(s, x, s', CodesBits(k) + t);
      assert CodesBits(k) + t == t by { NoCodes(k); }
    } else {
      RunBlockHeader(s, x, s.(phase := DynamicHeader, final := final), CodesBits(k) + t);
      RunDynamicHeader(s.(phase := DynamicHeader, final := final), k, t);
    }
    if Accepted(k) {
      RunCompressed(s', k, rest);
    }
  }

  lemma {:induction false} NoCodes(k: Block)
    requires k.Static?
    ensures CodesBits(k) == []
  {
  }

  lemma {:induction false} StaticCodes(k: Block)
    requires k.Static?
    ensures LitCode(k) == StaticLit() && DistCode(k) == StaticDist() && Accepted(k)
  {
  }

  // ----- Streams

  ghost predicate WritableBlocks(ks: seq<Block>, out: seq<Cell>)
    decreases |ks|
  {
    ks == [] || (WritableBlock(ks[0], out) && WritableBlocks(ks[1..], ApplyBlock(ks[0], out)))
  }

  /** What a stream of blocks stands for. */
  ghost function ApplyBlocks(ks: seq<Block>, out: seq<Cell>): seq<Cell>
    requires WritableBlocks(ks, out)
    decreases |ks|
  {
    if ks == [] then out else ApplyBlocks(ks[1..], ApplyBlock(ks[0], out))
  }

  ghost function StreamBits(ks: seq<Block>, pos: nat, out: seq<Cell>): seq<bool>
    requires WritableBlocks(ks, out)
    decreases |ks|
  {
    if ks == [] then []
    else
      var b := BlockBits(ks[0], |ks| == 1, pos, out);
      b + StreamBits(ks[1..], pos + |b|, ApplyBlock(ks[0], out))
  }

  ghost predicate AllAccepted(ks: seq<Block>) {
    forall i :: 0 <= i < |ks| ==> Accepted(ks[i])
  }

  /** The output of the blocks before the first that is not accepted. */
  ghost function Reached(ks: seq<Block>, out: seq<Cell>): seq<Cell>
    requires WritableBlocks(ks, out)
    decreases |ks|
  {
    if ks == [] || !Accepted(ks[0]) then out else Reached(ks[1..], ApplyBlock(ks[0], out))
  }

  lemma {:induction false} RunBlocks(s: State, ks: seq<Block>, pos: nat, rest: seq<bool>)
    requires s.phase == BlockHeader && ks != [] && WritableBlocks(ks, s.output)
    requires (pos + |StreamBits(ks, pos, s.output)| + |rest|) % 8 == 0
    ensures Run(s, StreamBits(ks, pos, s.output) + rest)
            == if AllAccepted(ks) then AfterBlock(s.format, true, ApplyBlocks(ks, s.output), rest)
               else Failed(EINVAL, Reached(ks, s.output))
    decreases |ks|
  {
    hide Run, BlockBits, ApplyBlock, WritableBlock, Accepted;
    var final := |ks| == 1;
    var b := BlockBits(ks[0], final, pos, s.output);
    var out := ApplyBlock(ks[0], s.output);
    var more := StreamBits(ks[1..], pos + |b|, out) + rest;
    assert StreamBits(ks, pos, s.output) + rest == b + more;
    RunBlock(s, ks[0], final, pos, more);
    if final {
      assert more == rest;
    } else {
      RunBlocks(State(BlockHeader, s.format, false, out), ks[1..], pos + |b|, rest);
      assert AllAccepted(ks) <==> Accepted(ks[0]) && AllAccepted(ks[1..]) by { SplitAccepted(ks); }
    }
  }

  lemma {:induction false} SplitAccepted(ks: seq<Block>)
    requires ks != []
    ensures AllAccepted(ks) <==> Accepted(ks[0]) && AllAccepted(ks[1..])
  {
    hide Accepted;
    assert forall i :: 0 < i < |ks| ==> ks[i] == ks[1..][i - 1];
  }

  /** Every raw stream that a compressor may write decompresses to what its blocks stand for, with
      what follows it left over, if and only if all blocks are accepted.  Otherwise it is rejected
      with the output of the blocks before the first that is not. */
  lemma {:induction false} InflateInvertsRaw(ks: seq<Block>, final: bool, rest: seq<bool>)
    requires ks != [] && WritableBlocks(ks, [])
    requires (|StreamBits(ks, 0, [])| + |rest|) % 8 == 0
    ensures Run(State(BlockHeader, Raw, final, []), StreamBits(ks, 0, []) + rest)
            == if AllAccepted(ks) then Finished(ApplyBlocks(ks, []), rest) else Failed(EINVAL, Reached(ks, []))
  {
    hide Run, StreamBits, ApplyBlocks, WritableBlocks, AllAccepted, Reached;
    RunBlocks(State(BlockHeader, Raw, final, []), ks, 0, rest);
  }

  /** A zlib stream: header, blocks, padding, checksum and whatever follows. */
  ghost function ZlibBits(ks: seq<Block>, header: nat, fill: seq<bool>, tail: seq<bool>): seq<bool>
    requires WritableBlocks(ks, []) && |fill| == 7
  {
    var bits := StreamBits(ks, 16, []);
    ToBits(header, 16) + (bits + (Padding(fill, 16 + |bits|) + tail))
  }

  /** A zlib header for the only compression method, without a preset dictionary. */
  predicate Supported(header: nat) {
    header % 16 == 8 && (header / 0x2000) % 2 == 0
  }

  /** Whatever follows any other header, it is rejected before anything is decompressed. */
  lemma {:induction false} UnsupportedHeader(header: nat, final: bool, rest: seq<bool>)
    requires header < 0x1_0000 && (header % 16 != 8 || (header / 0x2000) % 2 == 1)
    ensures Run(State(ZlibHeader, Zlib, final, []), ToBits(header, 16) + rest) == Failed(ENOTSUP, [])
  {
    hide Run, ToBits;
    assert Pow2(16) == 0x1_0000 by { Pow2Values(); }
    RunFieldFails(State(ZlibHeader, Zlib, final, []), header, 16, ENOTSUP, rest);
  }

  /** The same for a stream with a zlib header and footer; the checksum is required but not
      looked at. */
  lemma {:induction false} InflateInvertsZlib(ks: seq<Block>, final: bool, header: nat, fill: seq<bool>,
                                              tail: seq<bool>)
    requires ks != [] && WritableBlocks(ks, []) && |fill| == 7
    requires header < 0x1_0000 && header % 16 == 8 && (header / 0x2000) % 2 == 0
    requires |tail| >= 32 && |tail| % 8 == 0
    ensures Run(State(ZlibHeader, Zlib, final, []), ZlibBits(ks, header, fill, tail))
            == if AllAccepted(ks) then Finished(ApplyBlocks(ks, []), tail) else Failed(EINVAL, Reached(ks, []))
  {
    hide Run, ToBits, StreamBits, ApplyBlocks, WritableBlocks, Padding, AllAccepted, Reached;
    var bits := StreamBits(ks, 16, []);
    var pad := Padding(fill, 16 + |bits|);
    var s := State(BlockHeader, Zlib, final, []);
    assert Pow2(16) == 0x1_0000 by { Pow2Values(); }
    RunField(State(ZlibHeader, Zlib, final, []), header, 16, s, bits + (pad + tail));
    FooterAligned(|bits|, |pad + tail|, |pad|);
    PaddingFills(fill, 16 + |bits|, |pad + tail|);
    RunBlocks(s, ks, 16, pad + tail);
    assert (pad + tail)[|pad + tail| % 8..] == tail;
    ChecksumEnds(State(Adler32, Zlib, true, ApplyBlocks(ks, [])), tail);
  }

  lemma {:induction false} FooterAligned(n: nat, tail: nat, pad: nat)
    requires pad == (8 - (16 + n) % 8) % 8 && (tail - pad) % 8 == 0 && tail >= pad
    ensures (16 + n + tail) % 8 == 0
  {
  }

  lemma {:induction false} ChecksumEnds(s: State, b: seq<bool>)
    requires s.phase == Adler32 && |b| >= 32
    ensures Run(s, b) == Finished(s.output, b)
  {
    assert b[|b| - |b|..] == b;
  }

  // ----- A legal stream that is rejected

  /** Two literals and a match at distance two, the only distance used. */
  function Rejected(): Block {
    Dynamic(258, 2, [0, 0, 2, 2] + Repeat(0, 11) + [2, 0, 2],
            [Single(2), Single(2), ManyZeros(127), ManyZeros(105), Single(2), Single(2), Single(0), Single(1)],
            [Literal(0), Literal(1), Match(257, 0, 1, 0)])
  }

  lemma {:induction false} RejectedSent()
    ensures var sent := Rejected().sent;
            |sent| == 18
            && (forall i :: 0 <= i < 18 ==> sent[i] == if i == 2 || i == 3 || i == 15 || i == 17 then 2 else 0)
            && CodeLengthCode(sent) == [2, 2, 2] + Repeat(0, 15) + [2]
  {
  }

  lemma {:induction false} KraftZeros(n: nat)
    ensures Kraft(Repeat(0, n)) == 0
  {
    if n > 0 {
      KraftZeros(n - 1);
      assert Repeat(0, n)[..n - 1] == Repeat(0, n - 1);
    }
  }

  /** Four codes of two bits, with unused symbols between them. */
  lemma {:induction false} KraftQuarters(n: nat, a: nat, b: nat)
    requires a + b == 4
    ensures Complete(Repeat(2, a) + Repeat(0, n) + Repeat(2, b))
  {
    hide Kraft, Repeat;
    KraftZeros(n);
    KraftRepeat(2, a);
    KraftRepeat(2, b);
    KraftAppend(Repeat(2, a), Repeat(0, n));
    KraftAppend(Repeat(2, a) + Repeat(0, n), Repeat(2, b));
    Pow2Values();
    Distribute(a, b, Pow2(13));
  }

  /** How many code lengths commands describe. */
  function Covered(cs: seq<Command>): nat {
    if cs == [] then 0 else cs[0].Base() + cs[0].Extra() + Covered(cs[1..])
  }

  /** Commands that can be sent and cover the right number of code lengths describe them. */
  lemma {:induction false} DescribesCovered(cs: seq<Command>, codes: seq<nat>, lens: seq<nat>, prev: nat, total: nat)
    requires cs != [] && |lens| + Covered(cs) == total && forall i :: 0 <= i < |cs| ==> Sendable(cs[i], codes)
    ensures Describes(cs, codes, lens, prev, total)
    decreases |cs|
  {
    hide Sendable;
    if |cs| > 1 {
      DescribesCovered(cs[1..], codes, Extended(cs[0], lens, prev), cs[0].Value(prev), total);
    }
  }

  lemma {:induction false} RejectedDescribed()
    ensures Described(Rejected().commands, [], 0)
            == [2, 2] + Repeat(0, 138) + Repeat(0, 116) + [2, 2] + [0, 1]
    ensures Covered(Rejected().commands) == 260
  {
  }

  lemma {:induction false} RejectedDescribes()
    ensures Describes(Rejected().commands, [2, 2, 2] + Repeat(0, 15) + [2], [], 0, 260)
  {
    hide Describes, Described, Pow2;
    var cs, codes := Rejected().commands, [2, 2, 2] + Repeat(0, 15) + [2];
    assert Pow2(0) == 1 by { PowZero(); }
    Pow2Values();
    forall i | 0 <= i < |cs| ensures Sendable(cs[i], codes) {
      assert cs[i] in [Single(0), Single(1), Single(2), ManyZeros(127), ManyZeros(105)];
    }
    RejectedDescribed();
    DescribesCovered(cs, codes, [], 0, 260);
  }

  /** Lengths of the rejected block's codes. */
  lemma {:induction false} RejectedCodes()
    ensures var k := Rejected();
            Codes(k.nlit, k.ndist, k.sent, k.commands) && DistCode(k) == [0, 1]
            && Complete(LitCode(k)) && HasSymbol(LitCode(k), 256) && HasSymbol(LitCode(k), 257)
            && HasSymbol(LitCode(k), 0) && HasSymbol(LitCode(k), 1)
  {
    hide Kraft, Describes, Described;
    RejectedSent();
    RejectedDescribed();
    RejectedDescribes();
    KraftQuarters(15, 3, 1);
    KraftQuarters(254, 2, 2);
    var k := Rejected();
    assert CodeLengthCode(k.sent) == Repeat(2, 3) + Repeat(0, 15) + Repeat(2, 1);
    assert LitCode(k) == Repeat(2, 2) + Repeat(0, 254) + Repeat(2, 2);
    assert DistCode(k) == [0, 1];
  }

  lemma {:induction false} TwoIncomplete()
    ensures SingleCode([0, 1]) && !Complete([0, 1])
  {
    assert [0, 1][1] == 1;
    SparseIncomplete([0, 1]);
  }

  lemma {:induction false} RejectedTokens(lit: seq<nat>, dist: seq<nat>)
    requires HasSymbol(lit, 0) && HasSymbol(lit, 1) && HasSymbol(lit, 257) && HasSymbol(dist, 1)
    ensures var ts := Rejected().tokens;
            WritableAll(ts, lit, dist, [])
              && ApplyAll(ts, lit, dist, []) == [Byte(0), Byte(1), Byte(0), Byte(1), Byte(0)]
  {
    hide Pow2, Duplicate, WritableAll, ApplyAll, Writable, Apply;
    var m, l0, l1 := Match(257, 0, 1, 0), Literal(0), Literal(1);
    var none: seq<Cell>, one, two := [], [Byte(0)], [Byte(0), Byte(1)];
    PairToken(lit, dist, two);
    DuplicatePair(two);
    LiteralToken(0, lit, dist, none);
    LiteralToken(1, lit, dist, one);
    assert none + [Byte(0)] == one && one + [Byte(1)] == two;
    assert [m] + [] == [m] && [l1] + [m] == [l1, m] && [l0] + [l1, m] == Rejected().tokens;
    NoTokens(lit, dist, Apply(m, two));
    ConsToken(m, [], lit, dist, two);
    ConsToken(l1, [m], lit, dist, one);
    ConsToken(l0, [l1, m], lit, dist, none);
  }

  lemma {:induction false} NoTokens(lit: seq<nat>, dist: seq<nat>, out: seq<Cell>)
    ensures WritableAll([], lit, dist, out) && ApplyAll([], lit, dist, out) == out
  {
  }

  /** One token in front of others. */
  lemma {:induction false} ConsToken(t: Token, ts: seq<Token>, lit: seq<nat>, dist: seq<nat>, out: seq<Cell>)
    requires Writable(t, lit, dist, |out|) && WritableAll(ts, lit, dist, Apply(t, out))
    ensures WritableAll([t] + ts, lit, dist, out)
    ensures ApplyAll([t] + ts, lit, dist, out) == ApplyAll(ts, lit, dist, Apply(t, out))
  {
    hide Writable, Apply;
    assert ([t] + ts)[1..] == ts && ([t] + ts)[0] == t;
  }

  lemma {:induction false} LiteralToken(b: byte, lit: seq<nat>, dist: seq<nat>, out: seq<Cell>)
    requires HasSymbol(lit, b)
    ensures Writable(Literal(b), lit, dist, |out|) && Apply(Literal(b), out) == out + [Byte(b)]
  {
  }

  /** A match of length three at distance two. */
  lemma {:induction false} PairToken(lit: seq<nat>, dist: seq<nat>, out: seq<Cell>)
    requires HasSymbol(lit, 257) && HasSymbol(dist, 1) && |out| == 2
    ensures var m := Match(257, 0, 1, 0);
            Writable(m, lit, dist, 2) && Apply(m, out) == Duplicate(out, 2, 3)
  {
    hide Pow2, Duplicate;
    PowZero();
  }

  lemma {:induction false} DuplicatePair(out: seq<Cell>)
    requires |out| == 2
    ensures Duplicate(out, 2, 3) == [out[0], out[1], out[0], out[1], out[0]]
  {
    var o1 := out + [out[0]];
    var o2 := o1 + [out[1]];
    var o3 := o2 + [out[0]];
    assert Duplicate(o3, 2, 0) == o3;
    assert Duplicate(o2, 2, 1) == o3;
    assert Duplicate(o1, 2, 2) == o3;
  }

  /** The stream may be written and stands for five bytes, but is rejected. */
  lemma {:induction false} SingleDistanceRejected(final: bool, rest: seq<bool>)
    ensures WritableBlocks([Rejected()], []) && |ApplyBlocks([Rejected()], [])| == 5
    ensures var bits := StreamBits([Rejected()], 0, []) + rest;
            |bits| % 8 == 0 ==> Run(State(BlockHeader, Raw, final, []), bits) == Failed(EINVAL, [])
  {
    hide Run, BlockBits, Complete, LitCode, DistCode, Codes, WritableAll, ApplyAll, Rejected;
    RejectedWritable();
    var ks := [Rejected()];
    assert ks[1..] == [];
    if (|StreamBits(ks, 0, [])| + |rest|) % 8 == 0 {
      InflateInvertsRaw(ks, final, rest);
      assert !Accepted(ks[0]);
      assert Reached(ks, []) == [];
    }
  }

  lemma {:induction false} RejectedWritable()
    ensures var k := Rejected();
            WritableBlock(k, []) && !Accepted(k) && |ApplyBlock(k, [])| == 5
  {
    hide Complete, LitCode, DistCode, Codes, WritableAll, ApplyAll;
    RejectedCodes();
    TwoIncomplete();
    var k := Rejected();
    RejectedTokens(LitCode(k), DistCode(k));
  }

  // ----- A stream that does not determine its output

  /** A static block with a literal and a match that uses a distance code that RFC 1951 excludes,
      30 or 31, with extra bits zero. */
  ghost function StaleBits(b: byte, sym: nat, rest: seq<bool>): seq<bool>
    requires 30 <= sym < 32
  {
    ToBits(3, 3) + (Encode(StaticLit(), b) + (Encode(StaticLit(), 257) + (ToBits(0, 0)
    + (Encode(StaticDist(), sym) + (ToBits(0, 14) + (Encode(StaticLit(), 256) + rest))))))
  }

  /** The copy has distance zero, so the output shows what the buffer held before. */
  lemma {:induction false} ZeroDistanceStale(b: byte, sym: nat, final: bool, rest: seq<bool>)
    requires 30 <= sym < 32
    ensures var s, bits := State(BlockHeader, Raw, final, []), StaleBits(b, sym, rest);
            Run(s, bits) == Finished([Byte(b), Stale(1), Stale(2), Stale(3)], rest) && !NoZeroDistance(s, bits)
  {
    hide Run, Encode, ToBits, Pow2, Complete, StaticLit, StaticDist, Duplicate, NoZeroDistance;
    var lit, dist := StaticLit(), StaticDist();
    StaticSymbols();
    PowZero();
    Pow2Values();
    var s := State(BlockHeader, Raw, final, []);
    var s1 := State(Symbol(lit, dist), Raw, true, []);
    var s2 := s1.(output := [Byte(b)]);
    var s3 := s2.(phase := LengthExtra(lit, dist, 3, 0));
    var s4 := s2.(phase := Distance(lit, dist, 3));
    var s5 := s2.(phase := DistanceExtra(lit, dist, 3, 0, 14));
    var s6 := s2.(output := Duplicate([Byte(b)], 0, 3));
    var b5 := ToBits(0, 14) + (Encode(lit, 256) + rest);
    var b4 := Encode(dist, sym) + b5;
    var b3 := ToBits(0, 0) + b4;
    var b2 := Encode(lit, 257) + b3;
    RunBlockHeader(s, 3, s1, Encode(lit, b) + b2);
    assert s1.output + [Byte(b)] == s2.output;
    RunSymbol(s1, b, s2, b2);
    RunSymbol(s2, 257, s3, b3);
    RunField(s3, 0, 0, s4, b4);
    RunSymbol(s4, sym, s5, b5);
    RunField(s5, 0, 14, s6, Encode(lit, 256) + rest);
    RunEnd(s6, rest);
    DuplicateStale(Byte(b));
    OutputDetermined(s, StaleBits(b, sym, rest));
    assert !Determined([Byte(b), Stale(1), Stale(2), Stale(3)]) by {
      assert [Byte(b), Stale(1), Stale(2), Stale(3)][1].Stale?;
    }
  }

  lemma {:induction false} StaticSymbols()
    ensures Complete(StaticLit()) && Complete(StaticDist()) && DistanceCode(StaticDist()) == StaticDist()
    ensures forall sym :: 0 <= sym < 288 ==> HasSymbol(StaticLit(), sym)
    ensures forall sym :: 0 <= sym < 32 ==> HasSymbol(StaticDist(), sym)
  {
    hide Complete;
    StaticComplete();
  }

  lemma {:induction false} DuplicateStale(c: Cell)
    ensures Duplicate([c], 0, 3) == [c, Stale(1), Stale(2), Stale(3)]
  {
    var o1 := [c] + [Stale(1)];
    var o2 := o1 + [Stale(2)];
    var o3 := o2 + [Stale(3)];
    assert Duplicate(o3, 0, 0) == o3;
    assert Duplicate(o2, 0, 1) == o3;
    assert Duplicate(o1, 0, 2) == o3;
  }

  // ----- The plain data behind a stream

  lemma {:induction false} ApplyDetermined(t: Token, lit: seq<nat>, dist: seq<nat>, out: seq<Cell>)
    requires Writable(t, lit, dist, |out|) && Determined(out)
    ensures Determined(Apply(t, out))
  {
    hide Duplicate, Pow2;
    if t.Match? {
      assert t.Dist() > 0 by { assert forall i :: 0 <= i < 30 ==> DISTANCE_BASE[i] > 0; }
      assert t.Len() > 0 by { assert forall i :: 0 <= i < 28 ==> LENGTH_BASE[i] > 0; }
      DuplicateDetermined(out, t.Dist(), t.Len());
    }
  }

  lemma {:induction false} ApplyAllDetermined(ts: seq<Token>, lit: seq<nat>, dist: seq<nat>, out: seq<Cell>)
    requires WritableAll(ts, lit, dist, out) && Determined(out)
    ensures Determined(ApplyAll(ts, lit, dist, out))
    decreases |ts|
  {
    hide Determined, Apply;
    if ts != [] {
      ApplyDetermined(ts[0], lit, dist, out);
      ApplyAllDetermined(ts[1..], lit, dist, Apply(ts[0], out));
    }
  }

  lemma {:induction false} ApplyBlockDetermined(k: Block, out: seq<Cell>)
    requires WritableBlock(k, out) && Determined(out)
    ensures Determined(ApplyBlock(k, out))
  {
    if !k.Stored? {
      ApplyAllDetermined(k.tokens, LitCode(k), DistCode(k), out);
    }
  }

  /** No stream that a compressor may write leaves stale bytes in the output. */
  lemma {:induction false} ApplyBlocksDetermined(ks: seq<Block>, out: seq<Cell>)
    requires WritableBlocks(ks, out) && Determined(out)
    ensures Determined(ApplyBlocks(ks, out))
    decreases |ks|
  {
    hide WritableBlock, ApplyBlock, Determined;
    if ks != [] {
      ApplyBlockDetermined(ks[0], out);
      ApplyBlocksDetermined(ks[1..], ApplyBlock(ks[0], out));
    }
  }

  lemma {:induction false} ReachedDetermined(ks: seq<Block>, out: seq<Cell>)
    requires WritableBlocks(ks, out) && Determined(out)
    ensures Determined(Reached(ks, out))
    decreases |ks|
  {
    hide WritableBlock, ApplyBlock, Determined, Accepted;
    if ks != [] && Accepted(ks[0]) {
      ApplyBlockDetermined(ks[0], out);
      ReachedDetermined(ks[1..], ApplyBlock(ks[0], out));
    }
  }

  // ----- The static codes are complete, and every match can be written

  lemma {:induction false} KraftAppend(a: seq<nat>, b: seq<nat>)
    requires Lengths(a) && Lengths(b)
    ensures Lengths(a + b) && Kraft(a + b) == Kraft(a) + Kraft(b)
    decreases |b|
  {
    if b == [] {
      assert a + b == a;
    } else {
      var m := |b| - 1;
      KraftAppend(a, b[..m]);
      assert (a + b)[..|a + b| - 1] == a + b[..m];
    }
  }

  lemma {:induction false} KraftRepeat(v: nat, n: nat)
    requires 1 <= v <= 15
    ensures Kraft(Repeat(v, n)) == n * Pow2(15 - v)
  {
    if n > 0 {
      KraftRepeat(v, n - 1);
      assert Repeat(v, n)[..n - 1] == Repeat(v, n - 1);
      Distribute(n - 1, 1, Pow2(15 - v));
    }
  }

  lemma {:induction false} StaticComplete()
    ensures Complete(StaticLit()) && Complete(DistanceCode(StaticDist()))
  {
    hide Kraft, Repeat;
    KraftRepeat(8, 144); KraftRepeat(9, 112); KraftRepeat(7, 24); KraftRepeat(8, 8); KraftRepeat(5, 32);
    KraftAppend(Repeat(8, 144), Repeat(9, 112));
    KraftAppend(Repeat(8, 144) + Repeat(9, 112), Repeat(7, 24));
    KraftAppend(Repeat(8, 144) + Repeat(9, 112) + Repeat(7, 24), Repeat(8, 8));
    assert Pow2(7) == 128 && Pow2(6) == 64 && Pow2(8) == 256 && Pow2(10) == 1024;
  }

  /** Every length from 3 to 258 has a symbol. */
  lemma {:induction false} LengthWritable(len: nat) returns (sym: nat, extra: nat)
    requires 3 <= len <= 258
    ensures 257 <= sym <= 285 && extra < Pow2(LengthExtraBits(sym)) && LengthBase(sym) + extra == len
  {
    hide Pow2;
    if len == 258 {
      sym, extra := 285, 0;
      return;
    }
    var i := 0;
    while i + 1 < 28 && LENGTH_BASE[i + 1] <= len
      invariant i < 28 && LENGTH_BASE[i] <= len
    {
      i := i + 1;
    }
    LengthBaseTable(i);
    sym, extra := 257 + i, len - LENGTH_BASE[i];
  }

  /** Every distance from 1 to 32768 has a symbol. */
  lemma {:induction false} DistanceWritable(distance: nat) returns (sym: nat, extra: nat)
    requires 1 <= distance <= 0x8000
    ensures sym < 30 && extra < Pow2(DistanceExtraBits(sym)) && DistanceBase(sym) + extra == distance
  {
    hide Pow2;
    var i := 0;
    while i + 1 < 30 && DISTANCE_BASE[i + 1] <= distance
      invariant i < 30 && DISTANCE_BASE[i] <= distance
    {
      i := i + 1;
    }
    DistanceTable(i);
    sym, extra := i, distance - DISTANCE_BASE[i];
  }
}
