/** Key wrapping in memory, where source and destination may overlap. */
module AesWrap {
  import opened Bits
  import opened ByteStrings
  import opened KeyWrap

  /** Some blocks stored one after the other. */
  ghost predicate Stored(m: Bytes, at: nat, r: seq<Bytes>) {
    at + 8 * |r| <= |m| && forall k :: 0 <= k < |r| ==> m[at + 8 * k..at + 8 * k + 8] == r[k]
  }

  /** The blocks at an address. */
  function Blocks(m: Bytes, at: nat, n: nat): (r: seq<Bytes>)
    requires at + 8 * n <= |m|
    ensures |r| == n && Stored(m, at, r) && Shaped(State(IV, r), n)
  {
    seq(n, k requires 0 <= k < n => m[at + 8 * k..at + 8 * k + 8])
  }

  lemma {:induction false} BlocksUnique(m: Bytes, at: nat, r: seq<Bytes>)
    requires Stored(m, at, r)
    ensures r == Blocks(m, at, |r|)
  {
  }

  /** Memory after the destination's first eight bytes have been set to the initial value. */
  function Marked(m: Bytes, dest: nat): (m': Bytes)
    requires dest + 8 <= |m|
    ensures |m'| == |m|
  {
    Put(m, dest, IV)
  }

  method Copy(mem: array<byte>, to: nat, x: Bytes)
    requires to + |x| <= mem.Length
    modifies mem
    ensures mem[..] == Put(old(mem[..]), to, x)
  {
    for i := 0 to |x|
      invariant mem[..to] == old(mem[..to]) && mem[to..to + i] == x[..i] && mem[to + i..] == old(mem[to + i..])
    {
      mem[to + i] := x[i];
    }
    assert mem[..] == mem[..to] + mem[to..to + |x|] + mem[to + |x|..];
  }

  /** Nothing has changed outside a stretch of memory. */
  ghost predicate Within(m: Bytes, m': Bytes, lo: nat, hi: nat) {
    |m'| == |m| && forall x :: 0 <= x < |m| && !(lo <= x < hi) ==> m'[x] == m[x]
  }

  /** Register and blocks of a wrapped key. */
  ghost predicate Holds(m: Bytes, dest: nat, w: State) {
    |w.a| == 8 && dest + 8 <= |m| && m[dest..dest + 8] == w.a && Stored(m, dest + 8, w.r)
  }

  lemma {:induction false} StoredUpdate(m: Bytes, m': Bytes, at: nat, r: seq<Bytes>, i: nat, x: Bytes)
    requires Stored(m, at, r) && i < |r| && |x| == 8 && |m'| == |m|
    requires m'[at + 8 * i..at + 8 * i + 8] == x
    requires forall y :: at <= y < at + 8 * |r| && !(at + 8 * i <= y < at + 8 * i + 8) ==> m'[y] == m[y]
    ensures Stored(m', at, r[i := x])
  {
    forall k | 0 <= k < |r| ensures m'[at + 8 * k..at + 8 * k + 8] == r[i := x][k] {
      if k != i {
        assert m'[at + 8 * k..at + 8 * k + 8] == m[at + 8 * k..at + 8 * k + 8];
      }
    }
  }

  /** Encrypt the register with one block. */
  method WrapOne(mem: array<byte>, dest: nat, n: nat, i: int, s: nat, enc: Bytes -> Bytes, ghost dec: Bytes -> Bytes,
                 ghost w: State)
    requires Cipher(enc, dec) && Shaped(w, n) && Holds(mem[..], dest, w) && 1 <= i <= n && Uses(s, n, i - 1)
    modifies mem
    ensures Holds(mem[..], dest, Step(enc, w, s)) && Within(old(mem[..]), mem[..], dest, dest + 8 + 8 * n)
  {
    hide Xor, Mark, Put, Cipher, Holds, Within, Shaped, Unstep, Step, Uses;
    ghost var m0 := mem[..];
    var at := dest + 8 * i;
    Sizes(w, n);
    BlockAt(m0, dest, w, i - 1);
    var a, r := mem[dest..dest + 8], mem[at..at + 8];
    assert a == m0[dest..dest + 8] && r == m0[at..at + 8];
    var b := enc(a + r);
    StepIs(enc, dec, w, s, i - 1, b);
    ghost var m1 := Put(m0, dest, Mark(b[..8], s + 1));
    Copy(mem, dest, Mark(b[..8], s + 1));
    assert mem[..] == m1;
    Copy(mem, at, b[8..]);
    assert mem[..] == Put(m1, at, b[8..]);
    HoldsStep(m0, dest, w, i - 1, Mark(b[..8], s + 1), b[8..]);
  }

  /** Step `s` of a row of `n` blocks uses block `i`. */
  ghost predicate Uses(s: nat, n: nat, i: int) {
    n > 0 && s % n == i
  }

  lemma {:induction false} StepIs(enc: Bytes -> Bytes, dec: Bytes -> Bytes, w: State, s: nat, i: int, b: Bytes)
    requires Cipher(enc, dec) && Shaped(w, |w.r|) && Uses(s, |w.r|, i) && 0 <= i < |w.r| && b == enc(w.a + w.r[i])
    ensures |b| == 16 && Step(enc, w, s) == State(Mark(b[..8], s + 1), w.r[i := b[8..]])
  {
    hide Mark;
    assert |w.a + w.r[i]| == 16;
  }

  lemma {:induction false} BlockAt(m: Bytes, dest: nat, w: State, i: int)
    requires Holds(m, dest, w) && 0 <= i < |w.r|
    ensures dest + 8 * i + 16 <= dest + 8 + 8 * |w.r| <= |m| && m[dest..dest + 8] == w.a
            && m[dest + 8 * (i + 1)..dest + 8 * (i + 1) + 8] == w.r[i]
  {
    assert m[dest + 8 + 8 * i..dest + 8 + 8 * i + 8] == w.r[i];
  }

  /** Storing a new register and one new block. */
  lemma {:induction false} HoldsStep(m: Bytes, dest: nat, w: State, i: nat, a: Bytes, x: Bytes)
    requires Holds(m, dest, w) && i < |w.r| && |a| == 8 && |x| == 8
    ensures var m' := Put(Put(m, dest, a), dest + 8 * (i + 1), x);
            Holds(m', dest, State(a, w.r[i := x])) && Within(m, m', dest, dest + 8 + 8 * |w.r|)
  {
    hide Put, Stored;
    BlockAt(m, dest, w, i);
    var m1 := Put(m, dest, a);
    var m' := Put(m1, dest + 8 * (i + 1), x);
    assert m'[dest..dest + 8] == m1[dest..dest + 8];
    assert forall y :: dest + 8 <= y < |m| ==> m1[y] == m[y];
    assert forall y :: 0 <= y < |m| && !(dest + 8 * (i + 1) <= y < dest + 8 * (i + 1) + 8) ==> m'[y] == m1[y];
    StoredUpdate(m, m', dest + 8, w.r, i, x);
  }

  lemma {:induction false} WithinTrans(a: Bytes, b: Bytes, c: Bytes, lo: nat, hi: nat)
    requires Within(a, b, lo, hi) && Within(b, c, lo, hi)
    ensures Within(a, c, lo, hi)
  {
  }

  lemma {:induction false} RowEnd(n: nat, j: nat)
    ensures n * (j + 1) == n * j + n
  {
  }

  lemma {:induction false} WithinSame(m: Bytes, lo: nat, hi: nat)
    ensures Within(m, m, lo, hi)
  {
  }

  lemma {:induction false} NoSteps(enc: Bytes -> Bytes, w: State)
    requires |w.r| > 0
    ensures Steps(enc, w, 0) == w
  {
  }

  lemma {:induction false} NextStep(enc: Bytes -> Bytes, w: State, s: nat)
    requires |w.r| > 0
    ensures Steps(enc, w, s + 1) == Step(enc, Steps(enc, w, s), s)
  {
  }

  /** One pass over the blocks. */
  method WrapRow(mem: array<byte>, dest: nat, n: nat, j: nat, enc: Bytes -> Bytes, ghost dec: Bytes -> Bytes,
                 ghost w: State)
    requires Cipher(enc, dec) && Shaped(w, n) && n > 0 && n * j >= 0 && Holds(mem[..], dest, Steps(enc, w, n * j))
    modifies mem
    ensures n * (j + 1) >= 0 && Holds(mem[..], dest, Steps(enc, w, n * (j + 1)))
    ensures Within(old(mem[..]), mem[..], dest, dest + 8 + 8 * n)
  {
    hide Holds, Cipher, Step, Steps, Within;
    ghost var m0 := mem[..];
    WithinSame(m0, dest, dest + 8 + 8 * n);
    for i := 1 to n + 1
      invariant Holds(mem[..], dest, Steps(enc, w, n * j + i - 1)) && Within(m0, mem[..], dest, dest + 8 + 8 * n)
    {
      StepIndex(n, j, i);
      ghost var m1 := mem[..];
      StepsShaped(enc, dec, w, n * j + i - 1, n);
      NextStep(enc, w, n * j + i - 1);
      WrapOne(mem, dest, n, i, n * j + i - 1, enc, dec, Steps(enc, w, n * j + i - 1));
      WithinTrans(m0, m1, mem[..], dest, dest + 8 + 8 * n);
    }
    RowEnd(n, j);
  }

  /** Store the initial value, then copy the blocks. */
  method Prepare(mem: array<byte>, src: nat, dest: nat, n: nat)
    requires src + 8 * n <= mem.Length && dest + 8 * n + 8 <= mem.Length
    modifies mem
    ensures Holds(mem[..], dest, State(IV, Blocks(Marked(old(mem[..]), dest), src, n)))
    ensures Within(old(mem[..]), mem[..], dest, dest + 8 + 8 * n)
  {
    Copy(mem, dest, IV);
    ghost var m1 := mem[..];
    assert m1 == Marked(old(mem[..]), dest);
    ghost var r := Blocks(m1, src, n);
    var x := mem[src..src + 8 * n];
    Copy(mem, dest + 8, x);
    Moved(m1, mem[..], src, dest + 8, r);
    assert mem[..][dest..dest + 8] == IV;
  }

  lemma {:induction false} Moved(m: Bytes, m': Bytes, src: nat, dest: nat, r: seq<Bytes>)
    requires Stored(m, src, r) && |m'| == |m| && dest + 8 * |r| <= |m|
             && m'[dest..dest + 8 * |r|] == m[src..src + 8 * |r|]
    ensures Stored(m', dest, r)
  {
    forall k | 0 <= k < |r| ensures m'[dest + 8 * k..dest + 8 * k + 8] == r[k] {
      SliceOfSlice(m', dest, 8 * |r|, 8 * k, 8 * k + 8);
      SliceOfSlice(m, src, 8 * |r|, 8 * k, 8 * k + 8);
    }
  }

  /** Wrap `n` blocks at `src` to `dest`.  The initial value is stored before the blocks are copied. */
  method WrapKey(mem: array<byte>, src: nat, dest: nat, n: nat, enc: Bytes -> Bytes, ghost dec: Bytes -> Bytes,
                 context: bool) returns (rc: int)
    requires Cipher(enc, dec) && src + 8 * n <= mem.Length && dest + 8 * n + 8 <= mem.Length
    modifies mem
    ensures rc == if context then 0 else -1
    ensures !context ==> mem[..] == old(mem[..])
    ensures context ==> Holds(mem[..], dest, Wrap(enc, Blocks(Marked(old(mem[..]), dest), src, n)))
    ensures Within(old(mem[..]), mem[..], dest, dest + 8 + 8 * n)
  {
    hide Holds, Cipher, Step, Steps, Within;
    ghost var m0 := mem[..];
    WithinSame(m0, dest, dest + 8 + 8 * n);
    if !context {
      return -1;
    }
    ghost var w := State(IV, Blocks(Marked(mem[..], dest), src, n));
    Prepare(mem, src, dest, n);
    if n > 0 {
      assert Steps(enc, w, 0) == w by { NoSteps(enc, w); }
      for j := 0 to 6
        invariant n * j >= 0 && Holds(mem[..], dest, Steps(enc, w, n * j))
                  && Within(m0, mem[..], dest, dest + 8 + 8 * n)
      {
        ghost var m1 := mem[..];
        WrapRow(mem, dest, n, j, enc, dec, w);
        WithinTrans(m0, m1, mem[..], dest, dest + 8 + 8 * n);
      }
    }
    return 0;
  }

  // ----- Overlap

  /** The bytes of the source that the initial value overwrites. */
  ghost predicate Harmless(m: Bytes, src: nat, dest: nat, n: nat)
    requires src + 8 * n <= |m| && dest + 8 <= |m|
  {
    forall x :: src <= x < src + 8 * n && dest <= x < dest + 8 ==> m[x] == 0xA6
  }

  lemma {:induction false} SameBlocks(m: Bytes, m': Bytes, at: nat, n: nat)
    requires at + 8 * n <= |m| == |m'|
    ensures Blocks(m, at, n) == Blocks(m', at, n) <==> m[at..at + 8 * n] == m'[at..at + 8 * n]
  {
    if m[at..at + 8 * n] == m'[at..at + 8 * n] {
      Moved(m, m', at, at, Blocks(m, at, n));
      BlocksUnique(m', at, Blocks(m, at, n));
    }
    if Blocks(m, at, n) == Blocks(m', at, n) {
      forall x | at <= x < at + 8 * n ensures m[x] == m'[x] {
        var k := (x - at) / 8;
        assert m[x] == Blocks(m, at, n)[k][x - at - 8 * k] && m'[x] == Blocks(m', at, n)[k][x - at - 8 * k];
      }
    }
  }

  /** Wrapping gives what it should exactly if the initial value overwrites nothing of the source
      but bytes that equal it; in particular wrapping a buffer to itself is wrong unless the first
      block equals the initial value. */
  lemma {:induction false} OverlapExactly(m: Bytes, src: nat, dest: nat, n: nat, enc: Bytes -> Bytes,
                                          dec: Bytes -> Bytes)
    requires Cipher(enc, dec) && src + 8 * n <= |m| && dest + 8 * n + 8 <= |m|
    ensures Wrap(enc, Blocks(Marked(m, dest), src, n)) == Wrap(enc, Blocks(m, src, n)) <==> Harmless(m, src, dest, n)
  {
    hide Cipher, Wrap;
    var m' := Marked(m, dest);
    WrapInjective(enc, dec, Blocks(m', src, n), Blocks(m, src, n));
    SameBlocks(m', m, src, n);
    assert forall x :: 0 <= x < |m| ==> m'[x] == if dest <= x < dest + 8 then 0xA6 else m[x];
    var a, b := m'[src..src + 8 * n], m[src..src + 8 * n];
    if Harmless(m, src, dest, n) {
      assert a == b;
    } else {
      var x :| src <= x < src + 8 * n && dest <= x < dest + 8 && m[x] != 0xA6;
      assert a[x - src] == m'[x] && b[x - src] == m[x];
    }
  }

  /** Wrapping a buffer of zeros to itself. */
  lemma {:induction false} SameBufferWrong(n: nat, enc: Bytes -> Bytes, dec: Bytes -> Bytes)
    requires Cipher(enc, dec) && n > 0
    ensures var m := seq(8 * n + 8, i => 0);
            Wrap(enc, Blocks(Marked(m, 0), 0, n)) != Wrap(enc, Blocks(m, 0, n))
  {
    hide Cipher, Wrap;
    var m: Bytes := seq(8 * n + 8, i => 0);
    assert m[0] != 0xA6;
    OverlapExactly(m, 0, 0, n, enc, dec);
  }

  // ----- Unwrapping

  lemma {:induction false} UnstepIs(dec: Bytes -> Bytes, w: State, s: nat, i: int, b: Bytes)
    requires |w.a| == 8 && Uses(s, |w.r|, i) && 0 <= i < |w.r| && b == dec(Mark(w.a, s + 1) + w.r[i]) && |b| == 16
    ensures Unstep(dec, w, s) == State(b[..8], w.r[i := b[8..]])
  {
  }

  lemma {:induction false} UnstepBlock(enc: Bytes -> Bytes, dec: Bytes -> Bytes, w: State, i: int, s: nat)
    requires Cipher(enc, dec) && Shaped(w, |w.r|) && 0 <= i < |w.r|
    ensures |dec(Mark(w.a, s + 1) + w.r[i])| == 16
  {
    hide Xor, Mark;
    assert |Mark(w.a, s + 1) + w.r[i]| == 16;
  }

  lemma {:induction false} StoredAt(m: Bytes, at: nat, r: seq<Bytes>, i: int)
    requires Stored(m, at, r) && 0 <= i < |r|
    ensures at + 8 * i + 8 <= at + 8 * |r| <= |m| && m[at + 8 * i..at + 8 * i + 8] == r[i]
  {
  }

  lemma {:induction false} StoredPut(m: Bytes, at: nat, r: seq<Bytes>, i: nat, x: Bytes)
    requires Stored(m, at, r) && i < |r| && |x| == 8
    ensures Stored(Put(m, at + 8 * i, x), at, r[i := x]) && Within(m, Put(m, at + 8 * i, x), at, at + 8 * |r|)
  {
    hide Put, Stored;
    StoredAt(m, at, r, i);
    StoredUpdate(m, Put(m, at + 8 * i, x), at, r, i, x);
  }

  /** Decrypt the register with one block. */
  method UnwrapOne(mem: array<byte>, dest: nat, n: nat, i: int, s: nat, a: Bytes, ghost enc: Bytes -> Bytes,
                   dec: Bytes -> Bytes, ghost w: State)
    returns (a': Bytes)
    requires Cipher(enc, dec) && Shaped(w, n) && a == w.a && Stored(mem[..], dest, w.r) && 0 < n && 1 <= i <= n
             && Uses(s, n, i - 1)
    modifies mem
    ensures Shaped(Unstep(dec, w, s), n) && a' == Unstep(dec, w, s).a && Stored(mem[..], dest, Unstep(dec, w, s).r)
    ensures Within(old(mem[..]), mem[..], dest, dest + 8 * n)
  {
    hide Xor, Mark, Put, Cipher, Stored, Within, Step, Unstep, Uses;
    StepShaped(enc, dec, w, s, n);
    ghost var m0 := mem[..];
    var at := dest + 8 * (i - 1);
    StoredAt(m0, dest, w.r, i - 1);
    UnstepBlock(enc, dec, w, i - 1, s);
    var r := mem[at..at + 8];
    assert r == m0[at..at + 8];
    var b := dec(Mark(a, s + 1) + r);
    Copy(mem, at, b[8..]);
    StoredPut(m0, dest, w.r, i - 1, b[8..]);
    UnstepIs(dec, w, s, i - 1, b);
    a' := b[..8];
  }

  lemma {:induction false} UnstepsNext(dec: Bytes -> Bytes, w: State, n: nat)
    requires |w.r| > 0 && |w.a| == 8
    ensures Unsteps(dec, w, 0) == w
    ensures n > 0 ==> Unsteps(dec, w, n) == Unsteps(dec, Unstep(dec, w, n - 1), n - 1)
  {
  }

  /** One pass over the blocks, from the last to the first. */
  method UnwrapRow(mem: array<byte>, dest: nat, n: nat, j: nat, a: Bytes, ghost enc: Bytes -> Bytes,
                   dec: Bytes -> Bytes, ghost w: State)
    returns (a': Bytes, ghost w': State)
    requires Cipher(enc, dec) && Shaped(w, n) && a == w.a && Stored(mem[..], dest, w.r) && 0 < n
    modifies mem
    ensures Shaped(w', n) && a' == w'.a && Stored(mem[..], dest, w'.r) && n * j >= 0 && n * (j + 1) >= 0
    ensures Unsteps(dec, w', n * j) == Unsteps(dec, w, n * (j + 1))
    ensures Within(old(mem[..]), mem[..], dest, dest + 8 * n)
  {
    hide Cipher, Stored, Within, Unstep, Unsteps;
    ghost var m0 := mem[..];
    WithinSame(m0, dest, dest + 8 * n);
    RowEnd(n, j);
    a', w' := a, w;
    var i := n;
    while i > 0
      invariant 0 <= i <= n && Shaped(w', n) && a' == w'.a && Stored(mem[..], dest, w'.r)
      invariant n * j + i >= 0 && Unsteps(dec, w', n * j + i) == Unsteps(dec, w, n * (j + 1))
      invariant Within(m0, mem[..], dest, dest + 8 * n)
    {
      StepIndex(n, j, i);
      ghost var m1 := mem[..];
      UnstepsNext(dec, w', n * j + i);
      a' := UnwrapOne(mem, dest, n, i, n * j + i - 1, a', enc, dec, w');
      w' := Unstep(dec, w', n * j + i - 1);
      WithinTrans(m0, m1, mem[..], dest, dest + 8 * n);
      i := i - 1;
    }
  }

  /** Unwrap `n` blocks at `src` to `dest`, which may overlap in any way. */
  method UnwrapKey(mem: array<byte>, src: nat, dest: nat, n: nat, ghost enc: Bytes -> Bytes, dec: Bytes -> Bytes,
                   context: bool) returns (rc: int)
    requires Cipher(enc, dec) && src + 8 * n + 8 <= mem.Length && dest + 8 * n <= mem.Length
    modifies mem
    ensures !context ==> rc == -1 && mem[..] == old(mem[..])
    ensures context ==>
              var w := Unwrap(dec, State(old(mem[src..src + 8]), Blocks(old(mem[..]), src + 8, n)));
              Stored(mem[..], dest, w.r) && rc == if w.a == IV then 0 else -1
    ensures context && Cipher(dec, enc) ==>
              (rc == 0 <==> IsWrapping(enc, State(old(mem[src..src + 8]), Blocks(old(mem[..]), src + 8, n)), n))
    ensures Within(old(mem[..]), mem[..], dest, dest + 8 * n)
  {
    hide Cipher, Stored, Within, Unstep, Unsteps, Blocks, Put;
    ghost var m0 := mem[..];
    WithinSame(m0, dest, dest + 8 * n);
    if !context {
      return -1;
    }
    var a := mem[src..src + 8];
    ghost var w := State(a, Blocks(m0, src + 8, n));
    var x := mem[src + 8..src + 8 + 8 * n];
    Copy(mem, dest, x);
    Moved(m0, mem[..], src + 8, dest, w.r);
    assert Within(m0, mem[..], dest, dest + 8 * n) by { PutWithin(m0, dest, x); }
    if n > 0 {
      ghost var all := Unsteps(dec, w, 6 * n);
      var j := 6;
      while j > 0
        invariant 0 <= j <= 6 && Shaped(w, n) && a == w.a && Stored(mem[..], dest, w.r)
        invariant n * j >= 0 && Unsteps(dec, w, n * j) == all
        invariant Within(m0, mem[..], dest, dest + 8 * n)
      {
        j := j - 1;
        ghost var m1 := mem[..];
        a, w := UnwrapRow(mem, dest, n, j, a, enc, dec, w);
        WithinTrans(m0, m1, mem[..], dest, dest + 8 * n);
      }
      UnstepsNext(dec, w, 0);
    }
    if Cipher(dec, enc) {
      UnwrapExactly(enc, dec, State(old(mem[src..src + 8]), Blocks(m0, src + 8, n)), n);
    }
    var good := CheckIV(a);
    return if good then 0 else -1;
  }

  lemma {:induction false} PutWithin(m: Bytes, to: nat, x: Bytes)
    requires to + |x| <= |m|
    ensures Within(m, Put(m, to, x), to, to + |x|)
  {
    hide Put;
  }

  method CheckIV(a: Bytes) returns (good: bool)
    requires |a| == 8
    ensures good <==> a == IV
  {
    for i := 0 to 8
      invariant a[..i] == IV[..i]
    {
      if a[i] != 0xA6 {
        assert a[i] != IV[i];
        return false;
      }
      assert a[..i + 1] == a[..i] + [a[i]] && IV[..i + 1] == IV[..i] + [IV[i]];
    }
    assert a == a[..8] && IV == IV[..8];
    return true;
  }

  lemma {:induction false} WrapSize(enc: Bytes -> Bytes, r: seq<Bytes>)
    ensures |Wrap(enc, r).r| == |r|
  {
    hide Steps;
  }

  /** What is wrapped and unwrapped again comes back, if wrapping overwrites nothing it needs. */
  method WrapThenUnwrap(mem: array<byte>, src: nat, dest: nat, back: nat, n: nat, enc: Bytes -> Bytes,
                        dec: Bytes -> Bytes) returns (rc: int)
    requires Cipher(enc, dec) && src + 8 * n <= mem.Length && dest + 8 * n + 8 <= mem.Length
             && back + 8 * n <= mem.Length
    modifies mem
    ensures rc == 0
    ensures Stored(mem[..], back, Blocks(Marked(old(mem[..]), dest), src, n))
    ensures Harmless(old(mem[..]), src, dest, n) ==> Stored(mem[..], back, Blocks(old(mem[..]), src, n))
  {
    hide Cipher, Blocks, Wrap, Unwrap, Stored, Harmless, Within;
    ghost var m0 := mem[..];
    ghost var r := Blocks(Marked(m0, dest), src, n);
    ghost var w := Wrap(enc, r);
    UnwrapWrap(enc, dec, r);
    WrapSize(enc, r);
    rc := WrapKey(mem, src, dest, n, enc, dec, true);
    ghost var m1 := mem[..];
    BlocksUnique(m1, dest + 8, w.r);
    assert mem[dest..dest + 8] == m1[dest..dest + 8];
    rc := UnwrapKey(mem, dest, back, n, enc, dec, true);
    OverlapExactly(m0, src, dest, n, enc, dec);
    WrapInjective(enc, dec, r, Blocks(m0, src, n));
  }
}
