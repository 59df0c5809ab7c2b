/** Canonical Huffman codes as section 3.2.2 of RFC 1951 defines them: a code is given by the
    code length of every symbol (zero for an unused symbol), codes of one length are consecutive
    in symbol order, and shorter codes precede longer ones.

    Nothing here mentions the tables that the decompressor builds; `Decode` reads one bit at a
    time and is the reference against which those tables are proved.
  */
module Huffman {
  import opened Bits

  /** Longest code, in bits. */
  const MAX_BITS := 15

  ghost predicate Lengths(lens: seq<nat>) {
    forall i :: 0 <= i < |lens| ==> lens[i] <= MAX_BITS
  }

  /** Number of symbols whose code has length `k`. */
  function Count(lens: seq<nat>, k: nat): (n: nat)
    ensures n <= |lens|
  {
    if lens == [] then 0
    else Count(lens[..|lens| - 1], k) + (if lens[|lens| - 1] == k then 1 else 0)
  }

  /** First code of length `k`. */
  function First(lens: seq<nat>, k: nat): nat
    decreases k, 0
  {
    if k <= 1 then 0 else 2 * End(lens, k - 1)
  }

  /** One past the last code of length `k`. */
  function End(lens: seq<nat>, k: nat): nat
    decreases k, 1
  {
    if k == 0 then 0 else First(lens, k) + Count(lens, k)
  }

  /** The code of a symbol, to be sent most significant bit first. */
  function Code(lens: seq<nat>, sym: nat): nat
    requires sym < |lens|
  {
    First(lens, lens[sym]) + Count(lens[..sym], lens[sym])
  }

  ghost predicate IsCodeword(lens: seq<nat>, sym: nat, word: seq<bool>) {
    sym < |lens| && lens[sym] == |word| > 0 && Code(lens, sym) == Msb(word)
  }

  datatype Decoded = Decoded(sym: nat, used: nat)

  /** The first `k` bits of `b` are the codeword of `sym`, and no fewer bits are a codeword. */
  ghost predicate FirstCodeword(lens: seq<nat>, b: seq<bool>, sym: nat, k: nat) {
    1 <= k <= |b| && IsCodeword(lens, sym, b[..k])
    && forall j, s :: 1 <= j < k ==> !IsCodeword(lens, s, b[..j])
  }

  /** Bit-by-bit decoding: the symbol whose codeword is the shortest prefix of `b` that is a
      codeword at all, or `None` while `b` holds no complete codeword. */
  ghost function Decode(lens: seq<nat>, b: seq<bool>): (r: Option<Decoded>)
    ensures r.Some? ==> 1 <= r.value.used <= |b|
  {
    if exists sym: nat, k: nat :: FirstCodeword(lens, b, sym, k) then
      var sym: nat, k: nat :| FirstCodeword(lens, b, sym, k);
      Some(Decoded(sym, k))
    else None
  }

  /** Kraft sum of the code lengths, in units of 2^-15. */
  function Kraft(lens: seq<nat>): nat
    requires Lengths(lens)
  {
    if lens == [] then 0
    else
      var l := lens[|lens| - 1];
      assert forall i :: 0 <= i < |lens| - 1 ==> lens[..|lens| - 1][i] == lens[i];
      Kraft(lens[..|lens| - 1]) + (if l == 0 then 0 else Pow2(MAX_BITS - l))
  }

  /** Every infinite bit string starts with exactly one codeword. */
  ghost predicate Complete(lens: seq<nat>) {
    Lengths(lens) && Kraft(lens) == 0x8000
  }

  // ----- Counting

  lemma {:induction false} CountPrefix(lens: seq<nat>, k: nat, i: nat, j: nat)
    requires i <= j <= |lens|
    ensures Count(lens[..i], k) <= Count(lens[..j], k)
    decreases j
  {
    if i < j {
      assert lens[..j][..j - 1] == lens[..j - 1];
      CountPrefix(lens, k, i, j - 1);
    }
  }

  lemma {:induction false} CountStep(lens: seq<nat>, k: nat, i: nat)
    requires i < |lens|
    ensures Count(lens[..i + 1], k) == Count(lens[..i], k) + (if lens[i] == k then 1 else 0)
  {
    assert lens[..i + 1][..i] == lens[..i];
  }

  /** The rank of a used symbol among those of its length is below their number. */
  lemma {:induction false} RankBound(lens: seq<nat>, sym: nat)
    requires sym < |lens|
    ensures Count(lens[..sym], lens[sym]) < Count(lens, lens[sym])
  {
    CountStep(lens, lens[sym], sym);
    CountPrefix(lens, lens[sym], sym + 1, |lens|);
    assert lens[..|lens|] == lens;
  }

  lemma {:induction false} RankOrder(lens: seq<nat>, s: nat, t: nat)
    requires s < t < |lens| && lens[s] == lens[t]
    ensures Count(lens[..s], lens[s]) < Count(lens[..t], lens[s])
  {
    CountStep(lens, lens[s], s);
    CountPrefix(lens, lens[s], s + 1, t);
  }

  /** The symbol of length `k` with a given rank. */
  function Nth(lens: seq<nat>, k: nat, rank: nat): (sym: nat)
    requires rank < Count(lens, k)
    ensures sym < |lens| && lens[sym] == k && Count(lens[..sym], k) == rank
  {
    var m := |lens| - 1;
    if lens[m] == k && Count(lens[..m], k) == rank then m
    else
      var sym := Nth(lens[..m], k, rank);
      assert lens[..m][..sym] == lens[..sym];
      sym
  }

  /** Two symbols of one length with one rank are the same symbol. */
  lemma {:induction false} RankInjective(lens: seq<nat>, s: nat, t: nat)
    requires s < |lens| && t < |lens| && lens[s] == lens[t]
    requires Count(lens[..s], lens[s]) == Count(lens[..t], lens[t])
    ensures s == t
  {
    if s < t {
      RankOrder(lens, s, t);
    } else if t < s {
      RankOrder(lens, t, s);
    }
  }

  lemma {:induction false} CodewordUnique(lens: seq<nat>, s: nat, t: nat, word: seq<bool>)
    requires IsCodeword(lens, s, word) && IsCodeword(lens, t, word)
    ensures s == t
  {
    RankInjective(lens, s, t);
  }

  /** The codewords of length `k` are exactly the values from `First` up to `End`. */
  lemma {:induction false} CodewordRange(lens: seq<nat>, word: seq<bool>)
    requires |word| > 0
    ensures (exists sym :: IsCodeword(lens, sym, word))
            <==> First(lens, |word|) <= Msb(word) < End(lens, |word|)
  {
    var k := |word|;
    forall sym | IsCodeword(lens, sym, word)
      ensures First(lens, k) <= Msb(word) < End(lens, k)
    {
      RankBound(lens, sym);
    }
    if First(lens, k) <= Msb(word) < End(lens, k) {
      var sym := Nth(lens, k, Msb(word) - First(lens, k));
      assert IsCodeword(lens, sym, word);
    }
  }

  // ----- Kraft sum and code ranges

  /** One past the last code of length `k`, normalised to 16 bits. */
  function Bound(lens: seq<nat>, k: nat): nat
    requires k <= 16
  {
    End(lens, k) * Pow2(16 - k)
  }

  lemma {:induction false} BoundStep(lens: seq<nat>, k: nat)
    requires 1 <= k <= 16
    ensures Bound(lens, k) == Bound(lens, k - 1) + Count(lens, k) * Pow2(16 - k)
    ensures Bound(lens, k - 1) == First(lens, k) * Pow2(16 - k)
  {
    Pow2Add(1, 16 - k);
    MulAssoc(End(lens, k - 1), 2, Pow2(16 - k));
    Distribute(First(lens, k), Count(lens, k), Pow2(16 - k));
  }

  lemma {:induction false} BoundMonotone(lens: seq<nat>, j: nat, k: nat)
    requires j <= k <= 16
    ensures Bound(lens, j) <= Bound(lens, k)
  {
    if j < k {
      BoundMonotone(lens, j, k - 1);
      BoundStep(lens, k);
      assert Count(lens, k) * Pow2(16 - k) >= 0;
    }
  }

  lemma {:induction false} BoundEmpty(k: nat)
    requires k <= 16
    ensures Bound([], k) == 0
  {
    if k > 0 {
      BoundEmpty(k - 1);
      BoundStep([], k);
      assert Count([], k) == 0;
    }
  }

  /** Adding a symbol of length `l` moves every bound from `l` on by its share. */
  lemma {:induction false} BoundSnoc(lens: seq<nat>, l: nat, k: nat)
    requires k <= 16
    ensures Bound(lens + [l], k) == Bound(lens, k) + (if 1 <= l <= k then Pow2(16 - l) else 0)
  {
    if k > 0 {
      BoundSnoc(lens, l, k - 1);
      BoundStep(lens, k);
      BoundStep(lens + [l], k);
      assert (lens + [l])[..|lens|] == lens;
      Distribute(Count(lens, k), 1, Pow2(16 - k));
    }
  }

  /** The Kraft sum is where the last code range ends. */
  lemma {:induction false} KraftIsBound(lens: seq<nat>)
    requires Lengths(lens)
    ensures 2 * Kraft(lens) == Bound(lens, 15)
  {
    hide Bound;
    if lens == [] {
      BoundEmpty(15);
    } else {
      var m := |lens| - 1;
      KraftIsBound(lens[..m]);
      BoundSnoc(lens[..m], lens[m], 15);
      assert lens == lens[..m] + [lens[m]];
      if lens[m] > 0 {
        assert Pow2(16 - lens[m]) == 2 * Pow2(15 - lens[m]);
      }
    }
  }

  lemma {:induction false} CompleteBound(lens: seq<nat>)
    requires Complete(lens)
    ensures Bound(lens, 15) == 0x1_0000
  {
    KraftIsBound(lens);
  }

  // ----- Windows: sixteen bits of look-ahead, short input padded with zeros

  /** The number that the decoder compares with the table: the bits of `b` followed by zeros,
      cut to sixteen. */
  function Window(b: seq<bool>): (w: nat)
  {
    if |b| <= 16 then Msb(b) * Pow2(16 - |b|) else Msb(b[..16])
  }

  lemma {:induction false} WindowBound(b: seq<bool>)
    ensures Window(b) < 0x1_0000
  {
    Pow2Values();
    if |b| <= 16 {
      MsbBound(b);
      MulLess(Msb(b), Pow2(|b|), Pow2(16 - |b|));
      Pow2Add(|b|, 16 - |b|);
    } else {
      MsbBound(b[..16]);
    }
  }

  lemma {:induction false} WindowLeading(b: seq<bool>, k: nat)
    requires k <= |b| && k <= 16
    ensures Msb(b[..k]) == Window(b) / Pow2(16 - k)
  {
    if |b| <= 16 {
      MsbLeading(b, k, 16);
    } else {
      MsbLeading(b[..16], k, 16);
      assert b[..16][..k] == b[..k];
      assert Pow2(0) == 1;
      assert Msb(b[..16]) * Pow2(0) == Msb(b[..16]);
    }
  }

  lemma {:induction false} DivInRange(w: nat, lo: nat, hi: nat, p: nat)
    requires p > 0
    ensures lo * p <= w < hi * p <==> lo <= w / p < hi
  {
    var q, r := w / p, w % p;
    assert w == q * p + r;
    if lo <= q { MulMono(p, lo, q); } else { MulMono(p, q + 1, lo); Distribute(q, 1, p); }
    if q < hi { MulMono(p, q + 1, hi); Distribute(q, 1, p); } else { MulMono(p, hi, q); }
  }

  /** The leading `k` bits form a codeword exactly when the window lies in the range of length `k`. */
  lemma {:induction false} WindowCodeword(lens: seq<nat>, b: seq<bool>, k: nat)
    requires 1 <= k <= |b| && k <= 16
    ensures (exists sym :: IsCodeword(lens, sym, b[..k]))
            <==> Bound(lens, k - 1) <= Window(b) < Bound(lens, k)
  {
    CodewordRange(lens, b[..k]);
    WindowLeading(b, k);
    BoundStep(lens, k);
    DivInRange(Window(b), First(lens, k), End(lens, k), Pow2(16 - k));
  }

  // ----- What Decode returns

  lemma {:induction false} DecodeFinds(lens: seq<nat>, b: seq<bool>, sym: nat, k: nat)
    requires FirstCodeword(lens, b, sym, k)
    ensures Decode(lens, b) == Some(Decoded(sym, k))
  {
    forall s: nat, j: nat | FirstCodeword(lens, b, s, j) ensures s == sym && j == k {
      CodewordUnique(lens, s, if j == k then sym else s, b[..j]);
    }
  }

  /** More input never changes a symbol that has already been recognised. */
  lemma {:induction false} DecodeExtends(lens: seq<nat>, b: seq<bool>, more: seq<bool>)
    requires Decode(lens, b).Some?
    ensures Decode(lens, b + more) == Decode(lens, b)
  {
    var Decoded(sym, n) := Decode(lens, b).value;
    assert forall j :: 0 <= j <= |b| ==> (b + more)[..j] == b[..j];
    assert FirstCodeword(lens, b + more, sym, n);
    DecodeFinds(lens, b + more, sym, n);
  }

  /** No codeword ends before the length range in which the window lies, although a short window
      is padded with zeros. */
  lemma {:induction false} NoShorterCodeword(lens: seq<nat>, b: seq<bool>, k: nat)
    requires 1 <= k <= 15 && Bound(lens, k - 1) <= Window(b) < Bound(lens, k)
    ensures forall j, s :: 1 <= j <= |b| && j < k ==> !IsCodeword(lens, s, b[..j])
  {
    forall j, s | 1 <= j <= |b| && j < k ensures !IsCodeword(lens, s, b[..j]) {
      BoundMonotone(lens, j, k - 1);
      WindowCodeword(lens, b, j);
    }
  }

  /** When the range is that of a length not yet buffered, no symbol is complete. */
  lemma {:induction false} DecodeWaits(lens: seq<nat>, b: seq<bool>, k: nat)
    requires |b| < k <= 15 && Bound(lens, k - 1) <= Window(b) < Bound(lens, k)
    ensures Decode(lens, b) == None
  {
    NoShorterCodeword(lens, b, k);
  }

  /** The symbol of a length whose code is the leading bits of the window. */
  ghost predicate SymbolFor(lens: seq<nat>, window: nat, k: nat, sym: nat) {
    k <= 16 && sym < |lens| && lens[sym] == k && Code(lens, sym) == window / Pow2(16 - k)
  }

  /** Otherwise the range says how long the codeword is and so which symbol it stands for. */
  lemma {:induction false} DecodeByWindow(lens: seq<nat>, b: seq<bool>, k: nat, sym: nat)
    requires 1 <= k <= 15 && k <= |b| && Bound(lens, k - 1) <= Window(b) < Bound(lens, k)
    requires SymbolFor(lens, Window(b), k, sym)
    ensures Decode(lens, b) == Some(Decoded(sym, k))
  {
    NoShorterCodeword(lens, b, k);
    WindowLeading(b, k);
    assert FirstCodeword(lens, b, sym, k);
    DecodeFinds(lens, b, sym, k);
  }

  /** Every window in a range has a symbol. */
  lemma {:induction false} SymbolExists(lens: seq<nat>, window: nat, k: nat) returns (sym: nat)
    requires 1 <= k <= 15 && Bound(lens, k - 1) <= window < Bound(lens, k)
    ensures SymbolFor(lens, window, k, sym)
  {
    BoundStep(lens, k);
    DivInRange(window, First(lens, k), End(lens, k), Pow2(16 - k));
    sym := Nth(lens, k, window / Pow2(16 - k) - First(lens, k));
  }

  /** A complete code leaves no window unassigned. */
  lemma {:induction false} LocateWindow(lens: seq<nat>, w: nat, k: nat) returns (j: nat)
    requires k <= 16 && w < Bound(lens, k)
    ensures 1 <= j <= k && Bound(lens, j - 1) <= w < Bound(lens, j)
  {
    if k > 0 && w < Bound(lens, k - 1) {
      j := LocateWindow(lens, w, k - 1);
    } else {
      assert k > 0 by { assert End(lens, 0) == 0; assert Bound(lens, 0) == 0; }
      j := k;
    }
  }

  /** With a complete code, fifteen bits always decode. */
  lemma {:induction false} DecodeTotal(lens: seq<nat>, b: seq<bool>)
    requires Complete(lens) && |b| >= 15
    ensures Decode(lens, b).Some?
  {
    CompleteBound(lens);
    WindowBound(b);
    var k := LocateWindow(lens, Window(b), 15);
    var sym := SymbolExists(lens, Window(b), k);
    DecodeByWindow(lens, b, k, sym);
  }

  // ----- Encoding

  /** The bits sent for a symbol. */
  function Encode(lens: seq<nat>, sym: nat): (b: seq<bool>)
    requires sym < |lens|
    ensures |b| == lens[sym]
  {
    ToBitsMsb(Code(lens, sym), lens[sym])
  }

  /** Prefix freedom: a complete code decodes each codeword to its symbol whatever follows. */
  lemma {:induction false} DecodeEncode(lens: seq<nat>, sym: nat, rest: seq<bool>)
    requires Complete(lens) && sym < |lens| && lens[sym] > 0
    ensures Decode(lens, Encode(lens, sym) + rest) == Some(Decoded(sym, lens[sym]))
  {
    var k := lens[sym];
    var b := Encode(lens, sym) + rest;
    RankBound(lens, sym);
    CompleteBound(lens);
    BoundMonotone(lens, k, 15);
    MsbFits(lens, sym);
    assert b[..k] == Encode(lens, sym);
    assert IsCodeword(lens, sym, b[..k]);
    WindowCodeword(lens, b, k);
    WindowLeading(b, k);
    DecodeByWindow(lens, b, k, sym);
  }

  lemma {:induction false} MsbFits(lens: seq<nat>, sym: nat)
    requires Complete(lens) && sym < |lens| && lens[sym] > 0
    ensures Msb(Encode(lens, sym)) == Code(lens, sym)
  {
    var k := lens[sym];
    RankBound(lens, sym);
    CompleteBound(lens);
    BoundMonotone(lens, k, 15);
    Pow2Values();
    Pow2Add(k, 16 - k);
    if Code(lens, sym) >= Pow2(k) {
      MulMono(Pow2(16 - k), Pow2(k), Code(lens, sym));
      MulLess(Code(lens, sym), End(lens, k), Pow2(16 - k));
      assert false;
    }
    MsbToBits(Code(lens, sym), k);
  }
}
