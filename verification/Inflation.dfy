/** What decompression means: a transducer over bits that follows the grammar of RFC 1951 and
    section 2.2 of RFC 1950.  It knows nothing of accumulators, tables or input chunks.  Each
    phase carries exactly the data that the rest of the stream depends on.
  */
module Inflation {
  import opened Bits
  import opened Huffman
  import opened Lz77

  datatype Format = Raw | Zlib

  datatype Error = EINVAL | ENOTSUP

  datatype Phase =
    | ZlibHeader
    | BlockHeader
    | LiteralLen
    | LiteralNlen(len: nat)
    | LiteralData(remaining: nat)
    | DynamicHeader
    /** Reading the lengths of the code length codes, in the order of transmission. */
    | CodeLengthCodes(nlit: nat, ndist: nat, target: nat, sent: seq<nat>)
    /** Reading code lengths; `prev` is the one that a repeat code would repeat. */
    | CodeLengths(nlit: nat, ndist: nat, codes: seq<nat>, lens: seq<nat>, prev: nat)
    | CodeLengthsExtra(nlit: nat, ndist: nat, codes: seq<nat>, lens: seq<nat>, value: nat, base: nat, extra: nat)
    | Symbol(lit: seq<nat>, dist: seq<nat>)
    | LengthExtra(lit: seq<nat>, dist: seq<nat>, base: nat, extra: nat)
    | Distance(lit: seq<nat>, dist: seq<nat>, len: nat)
    | DistanceExtra(lit: seq<nat>, dist: seq<nat>, len: nat, base: nat, extra: nat)
    | Adler32

  datatype State = State(phase: Phase, format: Format, final: bool, output: seq<Cell>)

  /** One step: go on in a new state after using some bits, wait for input, fail or finish. */
  datatype Action = Next(state: State, used: nat) | NeedInput | Fail(error: Error) | Done(left: nat)

  // ----- Tables of RFC 1951

  /** Section 3.2.5, length codes 257 to 284. */
  const LENGTH_BASE: seq<nat> :=
    [3, 4, 5, 6, 7, 8, 9, 10, 11, 13, 15, 17, 19, 23, 27, 31, 35, 43, 51, 59, 67, 83, 99, 115, 131, 163, 195, 227]
  const LENGTH_EXTRA: seq<nat> :=
    [0, 0, 0, 0, 0, 0, 0, 0, 1, 1, 1, 1, 2, 2, 2, 2, 3, 3, 3, 3, 4, 4, 4, 4, 5, 5, 5, 5]

  /** Section 3.2.5, distance codes 0 to 29; the undefined codes 30 and 31 act as base zero. */
  const DISTANCE_BASE: seq<nat> :=
    [1, 2, 3, 4, 5, 7, 9, 13, 17, 25, 33, 49, 65, 97, 129, 193, 257, 385, 513, 769, 1025, 1537,
     2049, 3073, 4097, 6145, 8193, 12289, 16385, 24577, 0, 0]
  const DISTANCE_EXTRA: seq<nat> :=
    [0, 0, 0, 0, 1, 1, 2, 2, 3, 3, 4, 4, 5, 5, 6, 6, 7, 7, 8, 8, 9, 9, 10, 10, 11, 11, 12, 12, 13, 13, 14, 14]

  /** Section 3.2.7, order in which code length code lengths are sent. */
  const CODE_LENGTH_ORDER: seq<nat> := [16, 17, 18, 0, 8, 7, 9, 6, 10, 5, 11, 4, 12, 3, 13, 2, 14, 1, 15]

  function Repeat(value: nat, count: nat): (r: seq<nat>)
    ensures |r| == count && forall i :: 0 <= i < count ==> r[i] == value
  {
    seq(count, (i: nat) => value)
  }

  /** Section 3.2.6, the fixed code lengths. */
  function StaticLit(): (r: seq<nat>)
    ensures |r| == 288
  {
    Repeat(8, 144) + Repeat(9, 112) + Repeat(7, 24) + Repeat(8, 8)
  }

  function StaticDist(): (r: seq<nat>)
    ensures |r| == 32
  {
    Repeat(5, 32)
  }

  /** Base length and number of extra bits of a length symbol; the invalid symbols above 285 act
      like 285. */
  function LengthBase(sym: nat): nat {
    if 257 <= sym < 285 then LENGTH_BASE[sym - 257] else 258
  }

  function LengthExtraBits(sym: nat): nat {
    if 257 <= sym < 285 then LENGTH_EXTRA[sym - 257] else 0
  }

  function DistanceBase(sym: nat): nat {
    if sym < 32 then DISTANCE_BASE[sym] else 0
  }

  function DistanceExtraBits(sym: nat): nat {
    if sym < 32 then DISTANCE_EXTRA[sym] else 0
  }

  /** Place of each code length symbol in the order of transmission. */
  const CODE_LENGTH_PLACE: seq<nat> := [3, 17, 15, 13, 11, 9, 7, 5, 4, 6, 8, 10, 12, 14, 16, 18, 0, 1, 2]

  lemma {:induction false} CodeLengthPlaces()
    ensures |CODE_LENGTH_ORDER| == |CODE_LENGTH_PLACE| == 19
    ensures forall i :: 0 <= i < 19 ==> CODE_LENGTH_ORDER[i] < 19 && CODE_LENGTH_PLACE[CODE_LENGTH_ORDER[i]] == i
    ensures forall j :: 0 <= j < 19 ==> CODE_LENGTH_PLACE[j] < 19 && CODE_LENGTH_ORDER[CODE_LENGTH_PLACE[j]] == j
  {
  }

  /** The length sent for a code length symbol; those not sent are unused. */
  function SentLength(sent: seq<nat>, sym: nat): nat
    requires sym < 19
  {
    if CODE_LENGTH_PLACE[sym] < |sent| then sent[CODE_LENGTH_PLACE[sym]] else 0
  }

  /** Code length codes by symbol, for the first `n` symbols. */
  function Unscramble(sent: seq<nat>, n: nat): (codes: seq<nat>)
    requires n <= 19
    ensures |codes| == n && forall j :: 0 <= j < n ==> codes[j] == SentLength(sent, j)
  {
    seq(n, (j: nat) requires j < n => SentLength(sent, j))
  }

  // ----- Steps

  /** A block has ended after a step that used `used` bits and left `left`. */
  function BlockDone(s: State, used: nat, left: nat): Action {
    if !s.final then Next(s.(phase := BlockHeader), used)
    else if s.format == Raw then Done(left)
    else Next(s.(phase := Adler32), used + left % 8)
  }

  /** The code of a block that uses a single distance code is taken as two codes of one bit. */
  function DistanceCode(dist: seq<nat>): seq<nat> {
    if |dist| == 1 then [1, 1] else dist
  }

  /** Start the data of a compressed block with these code lengths. */
  ghost function Construct(s: State, lit: seq<nat>, dist: seq<nat>, used: nat): Action {
    if Complete(lit) && Complete(DistanceCode(dist)) then
      Next(s.(phase := Symbol(lit, DistanceCode(dist))), used)
    else Fail(EINVAL)
  }

  /** The phases that start with a Huffman code, and the code they use. */
  predicate IsCoded(p: Phase) {
    p.CodeLengths? || p.Symbol? || p.Distance?
  }

  function CodeOf(p: Phase): seq<nat>
    requires IsCoded(p)
  {
    match p
    case CodeLengths(_, _, codes, _, _) => codes
    case Symbol(lit, _) => lit
    case Distance(_, dist, _) => dist
  }

  /** The other phases start with a field of fixed width. */
  function FieldBits(p: Phase): nat {
    match p
    case ZlibHeader | LiteralLen | LiteralNlen(_) => 16
    case BlockHeader => 3
    case LiteralData(remaining) => if remaining == 0 then 0 else 8
    case DynamicHeader => 14
    case CodeLengthCodes(_, _, target, sent) => if |sent| < target then 3 else 0
    case CodeLengthsExtra(_, _, _, _, _, _, extra) => extra
    case LengthExtra(_, _, _, extra) => extra
    case DistanceExtra(_, _, _, _, extra) => extra
    case Adler32 => 32
    case _ => 0
  }

  /** Act on a symbol that took `used` bits and left `left`. */
  ghost function OnSymbol(s: State, sym: nat, used: nat, left: nat): Action
    requires IsCoded(s.phase)
  {
    match s.phase
    case CodeLengths(nlit, ndist, codes, lens, prev) =>
      if sym < 16 then Next(s.(phase := CodeLengthsExtra(nlit, ndist, codes, lens, sym, 1, 0)), used)
      else if sym == 16 then Next(s.(phase := CodeLengthsExtra(nlit, ndist, codes, lens, prev, 3, 2)), used)
      else if sym == 17 then Next(s.(phase := CodeLengthsExtra(nlit, ndist, codes, lens, 0, 3, 3)), used)
      else Next(s.(phase := CodeLengthsExtra(nlit, ndist, codes, lens, 0, 11, 7)), used)
    case Symbol(lit, dist) =>
      if sym < 256 then Next(s.(output := s.output + [Byte(sym)]), used)
      else if sym == 256 then BlockDone(s, used, left)
      else Next(s.(phase := LengthExtra(lit, dist, LengthBase(sym), LengthExtraBits(sym))), used)
    case Distance(lit, dist, len) =>
      Next(s.(phase := DistanceExtra(lit, dist, len, DistanceBase(sym), DistanceExtraBits(sym))), used)
  }

  /** The header of section 2.2 of RFC 1950: only method 8 without a preset dictionary. */
  function OnZlibHeader(s: State, x: nat, used: nat): Action {
    if x % 16 != 8 || (x / 0x2000) % 2 == 1 then Fail(ENOTSUP) else Next(s.(phase := BlockHeader), used)
  }

  ghost function OnBlockHeader(s: State, x: nat, used: nat, left: nat): Action {
    var s' := s.(final := x % 2 == 1);
    if x / 2 == 0 then Next(s'.(phase := LiteralLen), used + left % 8)
    else if x / 2 == 1 then Construct(s', StaticLit(), StaticDist(), used)
    else if x / 2 == 2 then Next(s'.(phase := DynamicHeader), used)
    else Fail(ENOTSUP)
  }

  function OnLiteralByte(s: State, x: nat, used: nat): Action
    requires s.phase.LiteralData? && s.phase.remaining > 0
  {
    Next(s.(phase := LiteralData(s.phase.remaining - 1), output := s.output + [Byte(x % 256)]), used)
  }

  function OnDynamicHeader(s: State, x: nat, used: nat): Action {
    Next(s.(phase := CodeLengthCodes(x % 32 + 257, (x / 32) % 32 + 1, (x / 1024) % 16 + 4, [])), used)
  }

  ghost function OnCodeLengthCode(s: State, x: nat, used: nat): Action
    requires s.phase.CodeLengthCodes?
  {
    var CodeLengthCodes(nlit, ndist, target, sent) := s.phase;
    if |sent| < target then Next(s.(phase := CodeLengthCodes(nlit, ndist, target, sent + [x])), used)
    else if Complete(Unscramble(sent, 19)) then
      Next(s.(phase := CodeLengths(nlit, ndist, Unscramble(sent, 19), [], 0)), used)
    else Fail(EINVAL)
  }

  /** Code lengths after a length has been stored `base + x` times, or as often as there is room. */
  function Repeated(p: Phase, x: nat): seq<nat>
    requires p.CodeLengthsExtra?
  {
    var room := if |p.lens| < p.nlit + p.ndist then p.nlit + p.ndist - |p.lens| else 0;
    p.lens + Repeat(p.value, Min(p.base + x, room))
  }

  ghost function OnRepeat(s: State, x: nat, used: nat): Action
    requires s.phase.CodeLengthsExtra?
  {
    var CodeLengthsExtra(nlit, ndist, codes, _, value, _, _) := s.phase;
    var lens := Repeated(s.phase, x);
    if |lens| < nlit + ndist then Next(s.(phase := CodeLengths(nlit, ndist, codes, lens, value)), used)
    else Construct(s, lens[..nlit], lens[nlit..], used)
  }

  function OnDistance(s: State, x: nat, used: nat): Action
    requires s.phase.DistanceExtra?
  {
    var DistanceExtra(lit, dist, len, base, _) := s.phase;
    if base + x > |s.output| then Fail(EINVAL)
    else Next(s.(phase := Symbol(lit, dist), output := Duplicate(s.output, base + x, len)), used)
  }

  /** Act on the value `x` of a field of `used` bits that left `left`. */
  ghost function OnField(s: State, x: nat, used: nat, left: nat): Action
    requires !IsCoded(s.phase)
  {
    match s.phase
    case ZlibHeader => OnZlibHeader(s, x, used)
    case BlockHeader => OnBlockHeader(s, x, used, left)
    case LiteralLen => Next(s.(phase := LiteralNlen(x)), used)
    case LiteralNlen(len) =>
      if len + x != 0xffff then Fail(EINVAL) else Next(s.(phase := LiteralData(len)), used)
    case LiteralData(remaining) =>
      if remaining == 0 then BlockDone(s, used, left) else OnLiteralByte(s, x, used)
    case DynamicHeader => OnDynamicHeader(s, x, used)
    case CodeLengthCodes(_, _, _, _) => OnCodeLengthCode(s, x, used)
    case CodeLengthsExtra(_, _, _, _, _, _, _) => OnRepeat(s, x, used)
    case LengthExtra(lit, dist, base, _) => Next(s.(phase := Distance(lit, dist, base + x)), used)
    case DistanceExtra(_, _, _, _, _) => OnDistance(s, x, used)
    case Adler32 => Done(used + left)
  }

  ghost function Step(s: State, b: seq<bool>): Action {
    if IsCoded(s.phase) then
      var r := Decode(CodeOf(s.phase), b);
      if r.None? then NeedInput else OnSymbol(s, r.value.sym, r.value.used, |b| - r.value.used)
    else
      var n := FieldBits(s.phase);
      if |b| < n then NeedInput else OnField(s, Lsb(b[..n]), n, |b| - n)
  }

  // ----- Runs

  datatype Outcome =
    | Waiting(state: State, pending: seq<bool>)
    | Failed(error: Error, output: seq<Cell>)
    | Finished(output: seq<Cell>, rest: seq<bool>)

  /** Steps that use no input lead to phases that do. */
  function Rank(p: Phase): nat {
    if p.LiteralData? || p.CodeLengthCodes? || p.CodeLengthsExtra? || p.LengthExtra? || p.DistanceExtra?
    then 1 else 0
  }

  lemma {:induction false} StepProgress(s: State, b: seq<bool>)
    ensures var a := Step(s, b);
            a.Next? ==> a.used <= |b| && (a.used > 0 || Rank(a.state.phase) < Rank(s.phase))
    ensures var a := Step(s, b);
            a.Done? ==> a.left <= |b|
  {
    hide Complete, Duplicate, Unscramble, Repeat, Lsb;
  }

  /** Decompress until the input runs out, the stream turns out invalid or it ends. */
  ghost function Run(s: State, b: seq<bool>): Outcome
    decreases |b|, Rank(s.phase)
  {
    StepProgress(s, b);
    match Step(s, b)
    case Next(s', used) => Run(s', b[used..])
    case NeedInput => Waiting(s, b)
    case Fail(e) => Failed(e, s.output)
    case Done(left) => Finished(s.output, b[|b| - left..])
  }

  lemma {:induction false} RunNext(s: State, b: seq<bool>, s': State, used: nat)
    requires Step(s, b) == Next(s', used)
    ensures used <= |b| && Run(s, b) == Run(s', b[used..])
    ensures |b[used..]| < |b| || (|b[used..]| == |b| && Rank(s'.phase) < Rank(s.phase))
  {
    StepProgress(s, b);
  }

  function Bytes(s: seq<byte>): (out: seq<Cell>)
    ensures |out| == |s| && forall i :: 0 <= i < |s| ==> out[i] == Byte(s[i])
  {
    seq(|s|, (i: nat) requires i < |s| => Byte(s[i]))
  }

  /** The state after literal data has been copied to the output. */
  function AfterLiteral(s: State, data: seq<byte>): State
    requires s.phase.LiteralData? && |data| <= s.phase.remaining
  {
    s.(phase := LiteralData(s.phase.remaining - |data|), output := s.output + Bytes(data))
  }

  lemma {:induction false} RunLiteralByte(s: State, x: byte, rest: seq<bool>)
    requires s.phase.LiteralData? && s.phase.remaining > 0
    ensures Run(s, ToBits(x, 8) + rest) == Run(AfterLiteral(s, [x]), rest)
  {
    var b := ToBits(x, 8) + rest;
    ByteValue(x);
    assert b[..8] == ToBits(x, 8) && b[8..] == rest;
    assert Step(s, b) == Next(AfterLiteral(s, [x]), 8) by {
      assert s.output + Bytes([x]) == s.output + [Byte(x)];
    }
    RunNext(s, b, AfterLiteral(s, [x]), 8);
  }

  /** Literal data is copied byte by byte, however much of it is at hand. */
  lemma {:induction false} RunLiteral(s: State, data: seq<byte>, rest: seq<bool>)
    requires s.phase.LiteralData? && |data| <= s.phase.remaining
    ensures Run(s, BytesToBits(data) + rest) == Run(AfterLiteral(s, data), rest)
    decreases |data|
  {
    hide Run, ToBits;
    if data == [] {
      assert BytesToBits(data) + rest == rest;
      assert AfterLiteral(s, data) == s;
    } else {
      var tail := data[1..];
      assert BytesToBits(data) + rest == ToBits(data[0], 8) + (BytesToBits(tail) + rest);
      RunLiteralByte(s, data[0], BytesToBits(tail) + rest);
      RunLiteral(AfterLiteral(s, [data[0]]), tail, rest);
      assert s.output + Bytes([data[0]]) + Bytes(tail) == s.output + Bytes(data);
      assert AfterLiteral(AfterLiteral(s, [data[0]]), tail) == AfterLiteral(s, data);
    }
  }

  // ----- Resumability

  /** Input that follows does not change a step that could be taken without it. */
  lemma {:induction false} StepExtends(s: State, b: seq<bool>, more: seq<bool>)
    requires |more| % 8 == 0 && !Step(s, b).NeedInput?
    ensures Step(s, b + more) == WithMoreLeft(Step(s, b), |more|)
  {
    if IsCoded(s.phase) {
      DecodeExtends(CodeOf(s.phase), b, more);
      var r := Decode(CodeOf(s.phase), b).value;
      OnSymbolExtends(s, r.sym, r.used, |b| - r.used, |more|);
    } else {
      var n := FieldBits(s.phase);
      assert (b + more)[..n] == b[..n];
      OnFieldExtends(s, Lsb(b[..n]), n, |b| - n, |more|);
    }
  }

  function WithMoreLeft(a: Action, n: nat): Action {
    if a.Done? then Done(a.left + n) else a
  }

  lemma {:induction false} OnSymbolExtends(s: State, sym: nat, used: nat, left: nat, n: nat)
    requires IsCoded(s.phase) && n % 8 == 0
    ensures OnSymbol(s, sym, used, left + n) == WithMoreLeft(OnSymbol(s, sym, used, left), n)
  {
  }

  lemma {:induction false} OnFieldExtends(s: State, x: nat, used: nat, left: nat, n: nat)
    requires !IsCoded(s.phase) && n % 8 == 0
    ensures OnField(s, x, used, left + n) == WithMoreLeft(OnField(s, x, used, left), n)
  {
  }

  /** Continue with more input after an outcome: only a waiting decompressor takes it up. */
  ghost function Resume(o: Outcome, more: seq<bool>): Outcome {
    match o
    case Waiting(s, pending) => Run(s, pending + more)
    case Failed(_, _) => o
    case Finished(out, rest) => Finished(out, rest + more)
  }

  /** Stopping for want of input and resuming later is the same as never having stopped. */
  lemma {:induction false} RunResumes(s: State, b: seq<bool>, more: seq<bool>)
    requires |more| % 8 == 0
    ensures Run(s, b + more) == Resume(Run(s, b), more)
    decreases |b|, Rank(s.phase)
  {
    hide Step;
    StepProgress(s, b);
    match Step(s, b) {
      case Next(s', used) =>
        StepExtends(s, b, more);
        StepProgress(s, b + more);
        assert (b + more)[used..] == b[used..] + more;
        RunResumes(s', b[used..], more);
      case NeedInput =>
      case Fail(_) =>
        StepExtends(s, b, more);
      case Done(left) =>
        StepExtends(s, b, more);
        assert (b + more)[|b + more| - (left + |more|)..] == b[|b| - left..] + more;
    }
  }

  function Flatten(chunks: seq<seq<byte>>): seq<byte> {
    if chunks == [] then [] else chunks[0] + Flatten(chunks[1..])
  }

  /** Feed chunks one after the other. */
  ghost function FeedAll(o: Outcome, chunks: seq<seq<byte>>): Outcome
    decreases |chunks|
  {
    if chunks == [] then o else FeedAll(Resume(o, BytesToBits(chunks[0])), chunks[1..])
  }

  /** However the input is cut into chunks, feeding the chunks gives what feeding it whole gives. */
  lemma {:induction false} ChunkingIrrelevant(s: State, b: seq<bool>, chunks: seq<seq<byte>>)
    ensures FeedAll(Run(s, b), chunks) == Run(s, b + BytesToBits(Flatten(chunks)))
    decreases |chunks|
  {
    hide Run, Resume, ToBits;
    if chunks == [] {
      assert b + BytesToBits([]) == b;
    } else {
      var c := BytesToBits(chunks[0]);
      RunResumes(s, b, c);
      ChunkingIrrelevant(s, b + c, chunks[1..]);
      BytesToBitsAppend(chunks[0], Flatten(chunks[1..]));
      assert b + c + BytesToBits(Flatten(chunks[1..])) == b + BytesToBits(Flatten(chunks));
    }
  }

  // ----- Output

  function OutputOf(o: Outcome): seq<Cell> {
    match o
    case Waiting(s, _) => s.output
    case Failed(_, out) => out
    case Finished(out, _) => out
  }

  /** Output is only ever appended to. */
  lemma {:induction false} OutputGrows(s: State, b: seq<bool>)
    ensures s.output <= OutputOf(Run(s, b))
    decreases |b|, Rank(s.phase)
  {
    StepProgress(s, b);
    match Step(s, b)
    case Next(s', used) =>
      StepGrows(s, b);
      OutputGrows(s', b[used..]);
    case _ =>
  }

  lemma {:induction false} StepGrows(s: State, b: seq<bool>)
    requires Step(s, b).Next?
    ensures s.output <= Step(s, b).state.output
  {
    if s.phase.DistanceExtra? {
      DuplicateExtends(s.output, s.phase.base + Lsb(b[..s.phase.extra]), s.phase.len);
    }
  }

  /** The run never duplicates a string at distance zero. */
  ghost predicate NoZeroDistance(s: State, b: seq<bool>)
    decreases |b|, Rank(s.phase)
  {
    StepProgress(s, b);
    match Step(s, b)
    case Next(s', used) =>
      (s.phase.DistanceExtra? ==> s.phase.base + Lsb(b[..s.phase.extra]) > 0)
      && NoZeroDistance(s', b[used..])
    case _ => true
  }

  /** Lengths of duplicated strings are at least three. */
  ghost predicate PositiveLength(p: Phase) {
    match p
    case LengthExtra(_, _, base, _) => base > 0
    case Distance(_, _, len) => len > 0
    case DistanceExtra(_, _, len, _, _) => len > 0
    case _ => true
  }

  lemma {:induction false} StepPositive(s: State, b: seq<bool>)
    requires PositiveLength(s.phase)
    ensures Step(s, b).Next? ==> PositiveLength(Step(s, b).state.phase)
  {
    assert forall i :: 0 <= i < |LENGTH_BASE| ==> LENGTH_BASE[i] > 0;
  }

  /** The output is determined by the stream exactly when no copy has distance zero. */
  lemma {:induction false} OutputDetermined(s: State, b: seq<bool>)
    requires PositiveLength(s.phase)
    ensures Determined(OutputOf(Run(s, b))) <==> Determined(s.output) && NoZeroDistance(s, b)
    decreases |b|, Rank(s.phase)
  {
    StepProgress(s, b);
    match Step(s, b)
    case Next(s', used) =>
      StepPositive(s, b);
      StepDetermined(s, b);
      OutputDetermined(s', b[used..]);
    case _ =>
  }

  lemma {:induction false} StepDetermined(s: State, b: seq<bool>)
    requires PositiveLength(s.phase) && Step(s, b).Next?
    ensures Determined(Step(s, b).state.output) <==>
            Determined(s.output) && (s.phase.DistanceExtra? ==> s.phase.base + Lsb(b[..s.phase.extra]) > 0)
  {
    var s' := Step(s, b).state;
    if s.phase.DistanceExtra? {
      DuplicateDetermined(s.output, s.phase.base + Lsb(b[..s.phase.extra]), s.phase.len);
    } else if s'.output != s.output {
      var c := s'.output[|s.output|];
      assert s'.output == s.output + [c] && c.Byte?;
      assert forall i :: 0 <= i < |s.output| ==> s'.output[i] == s.output[i];
    }
  }

  /** The run never uses the distance codes 30 and 31, which RFC 1951 excludes. */
  ghost predicate StandardDistances(s: State, b: seq<bool>)
    decreases |b|, Rank(s.phase)
  {
    StepProgress(s, b);
    match Step(s, b)
    case Next(s', used) =>
      (s.phase.Distance? ==> Decode(s.phase.dist, b).Some? && Decode(s.phase.dist, b).value.sym < 30)
      && StandardDistances(s', b[used..])
    case _ => true
  }

  /** Streams that use only the distance codes 0 to 29 determine their output. */
  lemma {:induction false} StandardOutputDetermined(s: State, b: seq<bool>)
    requires StandardDistances(s, b) && PositiveLength(s.phase) && (s.phase.DistanceExtra? ==> s.phase.base > 0)
    requires Determined(s.output)
    ensures Determined(OutputOf(Run(s, b)))
  {
    hide Run, Determined, StandardDistances, NoZeroDistance;
    StandardPositive(s, b);
    OutputDetermined(s, b);
  }

  lemma {:induction false} StandardPositive(s: State, b: seq<bool>)
    requires StandardDistances(s, b) && (s.phase.DistanceExtra? ==> s.phase.base > 0)
    ensures NoZeroDistance(s, b)
    decreases |b|, Rank(s.phase)
  {
    StepProgress(s, b);
    match Step(s, b)
    case Next(s', used) =>
      ExtraAfterDistance(s, b);
      StandardPositive(s', b[used..]);
    case _ =>
  }

  lemma {:induction false} ExtraAfterDistance(s: State, b: seq<bool>)
    ensures Step(s, b).Next? && Step(s, b).state.phase.DistanceExtra? ==>
              s.phase.Distance? && Decode(s.phase.dist, b).Some?
              && (Decode(s.phase.dist, b).value.sym < 30 ==> Step(s, b).state.phase.base > 0)
  {
    hide Complete, Duplicate, Unscramble, Repeat, Lsb;
    assert forall i :: 0 <= i < 30 ==> DISTANCE_BASE[i] > 0;
  }
}
