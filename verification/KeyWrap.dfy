/** Key wrapping (RFC 3394) with an arbitrary block cipher: the wrapping loops as steps on a register
    and a row of blocks, and the shift register form of section 2.2.1 as a reference.
  */
module KeyWrap {
  import opened Bits
  import opened ByteStrings

  /** A cipher on blocks of 16 bytes, and its inverse. */
  ghost predicate Cipher(enc: Bytes -> Bytes, dec: Bytes -> Bytes) {
    && (forall b: Bytes :: |b| == 16 ==> |enc(b)| == 16 && dec(enc(b)) == b)
    && (forall b: Bytes :: |b| == 16 ==> |dec(b)| == 16)
  }

  /** The register and the blocks. */
  datatype State = State(a: Bytes, r: seq<Bytes>)

  predicate Shaped(w: State, n: nat) {
    |w.a| == 8 && |w.r| == n && forall k :: 0 <= k < n ==> |w.r[k]| == 8
  }

  const IV: Bytes := [0xA6, 0xA6, 0xA6, 0xA6, 0xA6, 0xA6, 0xA6, 0xA6]

  /** Exclusive or of a counter into the last byte of the register. */
  function Mark(a: Bytes, t: nat): (a': Bytes)
    requires |a| == 8
    ensures |a'| == 8
  {
    a[7 := XorByte(a[7], t % 256)]
  }

  // ----- Wrapping

  /** Step `s` encrypts the register with block `s` modulo the number of blocks. */
  function Step(enc: Bytes -> Bytes, w: State, s: nat): State
    requires |w.r| > 0
  {
    var i := s % |w.r|;
    var b := enc(w.a + w.r[i]);
    if |b| == 16 then State(Mark(b[..8], s + 1), w.r[i := b[8..]]) else w
  }

  function Steps(enc: Bytes -> Bytes, w: State, n: nat): (w': State)
    requires |w.r| > 0
    ensures |w'.r| == |w.r|
  {
    if n == 0 then w else Step(enc, Steps(enc, w, n - 1), n - 1)
  }

  /** Undo step `s`. */
  function Unstep(dec: Bytes -> Bytes, w: State, s: nat): State
    requires |w.r| > 0 && |w.a| == 8
  {
    var i := s % |w.r|;
    var b := dec(Mark(w.a, s + 1) + w.r[i]);
    if |b| == 16 then State(b[..8], w.r[i := b[8..]]) else w
  }

  function Unsteps(dec: Bytes -> Bytes, w: State, n: nat): (w': State)
    requires |w.r| > 0 && |w.a| == 8
    ensures |w'.r| == |w.r| && |w'.a| == 8
    decreases n
  {
    if n == 0 then w else Unsteps(dec, Unstep(dec, w, n - 1), n - 1)
  }

  /** Wrapping some blocks. */
  function Wrap(enc: Bytes -> Bytes, r: seq<Bytes>): State {
    if r == [] then State(IV, r) else Steps(enc, State(IV, r), 6 * |r|)
  }

  /** Unwrapping: the register should then hold the initial value. */
  function Unwrap(dec: Bytes -> Bytes, w: State): State
    requires |w.a| == 8
  {
    if w.r == [] then w else Unsteps(dec, w, 6 * |w.r|)
  }

  lemma {:induction false} StepShaped(enc: Bytes -> Bytes, dec: Bytes -> Bytes, w: State, s: nat, n: nat)
    requires Cipher(enc, dec) && Shaped(w, n) && n > 0
    ensures Shaped(Step(enc, w, s), n) && Shaped(Unstep(dec, w, s), n)
    ensures |enc(w.a + w.r[s % n])| == 16
  {
    var i := s % n;
    assert |w.a + w.r[i]| == 16 && |Mark(w.a, s + 1) + w.r[i]| == 16;
  }

  lemma {:induction false} StepsShaped(enc: Bytes -> Bytes, dec: Bytes -> Bytes, w: State, k: nat, n: nat)
    requires Cipher(enc, dec) && Shaped(w, n) && n > 0
    ensures Shaped(Steps(enc, w, k), n)
  {
    hide Cipher, Step;
    if k > 0 {
      StepsShaped(enc, dec, w, k - 1, n);
      StepShaped(enc, dec, Steps(enc, w, k - 1), k - 1, n);
    } else {
      assert Steps(enc, w, 0) == w;
    }
  }

  lemma {:induction false} UnstepStep(enc: Bytes -> Bytes, dec: Bytes -> Bytes, w: State, s: nat, n: nat)
    requires Cipher(enc, dec) && Shaped(w, n) && n > 0
    ensures Shaped(Step(enc, w, s), n) && Unstep(dec, Step(enc, w, s), s) == w
  {
    hide Xor;
    StepShaped(enc, dec, w, s, n);
    var i := s % n;
    var b := enc(w.a + w.r[i]);
    var w' := Step(enc, w, s);
    XorTwice(b[7], (s + 1) % 256);
    assert Mark(w'.a, s + 1) == b[..8];
    assert Mark(w'.a, s + 1) + w'.r[i] == b;
    assert dec(b) == w.a + w.r[i];
    assert dec(b)[..8] == w.a && dec(b)[8..] == w.r[i];
    assert w'.r[i := w.r[i]] == w.r;
  }

  lemma {:induction false} UnstepsSteps(enc: Bytes -> Bytes, dec: Bytes -> Bytes, w: State, k: nat, n: nat)
    requires Cipher(enc, dec) && Shaped(w, n) && n > 0
    ensures Shaped(Steps(enc, w, k), n) && Unsteps(dec, Steps(enc, w, k), k) == w
  {
    hide Cipher, Step, Unstep;
    StepsShaped(enc, dec, w, k, n);
    if k > 0 {
      var v := Steps(enc, w, k - 1);
      StepsShaped(enc, dec, w, k - 1, n);
      UnstepStep(enc, dec, v, k - 1, n);
      UnstepsSteps(enc, dec, w, k - 1, n);
    }
  }

  /** Unwrapping what was wrapped gives the initial value and the blocks. */
  lemma {:induction false} UnwrapWrap(enc: Bytes -> Bytes, dec: Bytes -> Bytes, r: seq<Bytes>)
    requires Cipher(enc, dec) && Shaped(State(IV, r), |r|)
    ensures |Wrap(enc, r).a| == 8 && Unwrap(dec, Wrap(enc, r)) == State(IV, r)
  {
    hide Cipher, Steps, Unsteps;
    if r != [] {
      UnstepsSteps(enc, dec, State(IV, r), 6 * |r|, |r|);
    }
  }

  // ----- What unwrapping accepts

  lemma {:induction false} StepUnstep(enc: Bytes -> Bytes, dec: Bytes -> Bytes, w: State, s: nat, n: nat)
    requires Cipher(enc, dec) && Cipher(dec, enc) && Shaped(w, n) && n > 0
    ensures Shaped(Unstep(dec, w, s), n) && Step(enc, Unstep(dec, w, s), s) == w
  {
    hide Xor;
    StepShaped(enc, dec, w, s, n);
    var i := s % n;
    var a := Mark(w.a, s + 1);
    var b := dec(a + w.r[i]);
    var w' := Unstep(dec, w, s);
    assert w'.a + w'.r[i] == b && enc(b) == a + w.r[i];
    assert enc(b)[..8] == a && enc(b)[8..] == w.r[i];
    XorTwice(w.a[7], (s + 1) % 256);
    assert Mark(a, s + 1) == w.a;
    assert w'.r[i := w.r[i]] == w.r;
  }

  lemma {:induction false} StepsUnsteps(enc: Bytes -> Bytes, dec: Bytes -> Bytes, w: State, k: nat, n: nat)
    requires Cipher(enc, dec) && Cipher(dec, enc) && Shaped(w, n) && n > 0
    ensures Shaped(Unsteps(dec, w, k), n) && Steps(enc, Unsteps(dec, w, k), k) == w
    decreases k
  {
    hide Cipher, Step, Unstep;
    if k > 0 {
      StepUnstep(enc, dec, w, k - 1, n);
      StepsUnsteps(enc, dec, Unstep(dec, w, k - 1), k - 1, n);
    }
  }

  /** Something that some blocks are wrapped to. */
  ghost predicate IsWrapping(enc: Bytes -> Bytes, w: State, n: nat) {
    exists r: seq<Bytes> :: Shaped(State(IV, r), n) && Wrap(enc, r) == w
  }

  /** Unwrapping finds the initial value in exactly the wrappings. */
  lemma {:induction false} UnwrapExactly(enc: Bytes -> Bytes, dec: Bytes -> Bytes, w: State, n: nat)
    requires Cipher(enc, dec) && Cipher(dec, enc) && Shaped(w, n)
    ensures Unwrap(dec, w).a == IV <==> IsWrapping(enc, w, n)
  {
    hide Cipher, Steps, Unsteps;
    var u := Unwrap(dec, w);
    if n > 0 {
      StepsUnsteps(enc, dec, w, 6 * n, n);
    }
    if u.a == IV {
      assert u == State(IV, u.r);
      assert Shaped(State(IV, u.r), n) && Wrap(enc, u.r) == w;
    }
    if IsWrapping(enc, w, n) {
      var r :| Shaped(State(IV, r), n) && Wrap(enc, r) == w;
      UnwrapWrap(enc, dec, r);
    }
  }

  /** Different blocks are wrapped differently. */
  lemma {:induction false} WrapInjective(enc: Bytes -> Bytes, dec: Bytes -> Bytes, r: seq<Bytes>, r': seq<Bytes>)
    requires Cipher(enc, dec) && Shaped(State(IV, r), |r|) && Shaped(State(IV, r'), |r'|)
    ensures Wrap(enc, r) == Wrap(enc, r') <==> r == r'
  {
    hide Cipher, Wrap, Unwrap;
    UnwrapWrap(enc, dec, r);
    UnwrapWrap(enc, dec, r');
  }

  // ----- The loops written out

  /** Wrapping starts from eight bytes 0xA6 and takes six passes over the blocks. */
  lemma {:induction false} WrapStarts(enc: Bytes -> Bytes, r: seq<Bytes>)
    requires r != []
    ensures var w0 := State([0xA6, 0xA6, 0xA6, 0xA6, 0xA6, 0xA6, 0xA6, 0xA6], r);
            Wrap(enc, r) == Steps(enc, w0, 6 * |r|) && Steps(enc, w0, 0) == w0
  {
    hide Step;
  }

  /** Section 2.2.1 of RFC 3394 with indices, but for the step counter of which only the last byte is used: pass `j`
      over block `i`, counting from one, encrypts the integrity value and the block, keeps the second half as the
      block and marks the first half with `t`, which is `n * j + i`. */
  lemma {:induction false} WrapSteps(enc: Bytes -> Bytes, dec: Bytes -> Bytes, w0: State, n: nat, t: nat, j: nat,
                                     i: nat)
    requires Cipher(enc, dec) && Shaped(w0, n) && 1 <= i <= n && 1 <= t == n * j + i
    ensures var w := Steps(enc, w0, t - 1);
            && |w.r| == n
            && var b := enc(w.a + w.r[i - 1]);
               && |b| == 16
               && Steps(enc, w0, t) == State(b[..7] + [XorByte(b[7], t % 256)], w.r[i - 1 := b[8..]])
  {
    hide Step, Shaped, Steps;
    Sizes(w0, n);
    var w := Steps(enc, w0, t - 1);
    StepsShaped(enc, dec, w0, t - 1, n);
    Sizes(w, n);
    StepsNext(enc, w0, t);
    StepIndex(n, j, i);
    StepAt(enc, dec, w, n, t, i - 1);
  }

  lemma {:induction false} Sizes(w: State, n: nat)
    requires Shaped(w, n)
    ensures |w.r| == n && |w.a| == 8
  {
  }

  lemma {:induction false} StepsNext(enc: Bytes -> Bytes, w: State, t: nat)
    requires |w.r| > 0 && t > 0
    ensures Steps(enc, w, t) == Step(enc, Steps(enc, w, t - 1), t - 1)
  {
    hide Step;
  }

  lemma {:induction false} StepIndex(n: nat, j: nat, i: nat)
    requires 1 <= i <= n
    ensures n * j + i - 1 >= 0 && (n * j + i - 1) % n == i - 1
  {
    var x := n * j;
    assert x >= 0;
    MulCommutes(n, j);
    DivModUnique(n * j + i - 1, j, n, i - 1);
  }

  lemma {:induction false} StepAt(enc: Bytes -> Bytes, dec: Bytes -> Bytes, w: State, n: nat, t: nat, i: nat)
    requires Cipher(enc, dec) && Shaped(w, n) && i < n && t > 0 && (t - 1) % n == i
    ensures var b := enc(w.a + w.r[i]);
            |b| == 16 && Step(enc, w, t - 1) == State(b[..7] + [XorByte(b[7], t % 256)], w.r[i := b[8..]])
  {
    hide XorByte;
    var b := enc(w.a + w.r[i]);
    assert b[..8][7 := XorByte(b[7], t % 256)] == b[..7] + [XorByte(b[7], t % 256)];
  }
}
