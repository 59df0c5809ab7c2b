/** The wrapping loops compared with the shift register form of RFC 3394, section 2.2.1, in which the
    counter is a 64-bit number.
  */
module KeyWrapStandard {
  import opened Bits
  import opened ByteStrings
  import opened KeyWrap

  /** Byte `k` of a 64-bit number, most significant first. */
  function ByteOf(t: nat, k: nat): byte
    requires k < 8
  {
    (t / Pow2(8 * (7 - k))) % 256
  }

  /** Exclusive or of a 64-bit counter into the register. */
  function MarkWord(a: Bytes, t: nat): (a': Bytes)
    requires |a| == 8
    ensures |a'| == 8
  {
    seq(8, k requires 0 <= k < 8 => XorByte(a[k], ByteOf(t, k)))
  }

  /** Step `t` encrypts the register with the first block, and the result goes last. */
  function Shift(enc: Bytes -> Bytes, w: State, t: nat): (w': State)
    requires |w.r| > 0
    ensures |w'.r| == |w.r|
  {
    var b := enc(w.a + w.r[0]);
    if |b| == 16 then State(MarkWord(b[..8], t), w.r[1..] + [b[8..]]) else w
  }

  function Shifts(enc: Bytes -> Bytes, w: State, n: nat): (w': State)
    requires |w.r| > 0
    ensures |w'.r| == |w.r|
  {
    if n == 0 then w else Shift(enc, Shifts(enc, w, n - 1), n)
  }

  /** Wrapping as the standard defines it. */
  function StandardWrap(enc: Bytes -> Bytes, r: seq<Bytes>): State {
    if r == [] then State(IV, r) else Shifts(enc, State(IV, r), 6 * |r|)
  }

  // ----- Small counters

  lemma {:induction false} SmallCounter(a: Bytes, t: nat)
    requires |a| == 8 && t < 256
    ensures MarkWord(a, t) == Mark(a, t)
  {
    forall k | 0 <= k < 8 ensures MarkWord(a, t)[k] == Mark(a, t)[k] {
      if k < 7 {
        HighByte(t, k);
      } else {
        assert Pow2(0) == 1;
      }
    }
  }

  lemma {:induction false} HighByte(t: nat, k: nat)
    requires k < 7 && t < 256
    ensures ByteOf(t, k) == 0
  {
    hide Pow2;
    assert Pow2(8) == 256 by { Pow2Values(); }
    Pow2Monotone(8, 8 * (7 - k));
    DivModUnique(t, 0, Pow2(8 * (7 - k)), t);
  }

  function Rotate(r: seq<Bytes>, i: nat): seq<Bytes>
    requires i <= |r|
  {
    r[i..] + r[..i]
  }

  /** After `k` steps the shift register holds the same blocks, rotated. */
  lemma {:induction false} ShiftsRotated(enc: Bytes -> Bytes, dec: Bytes -> Bytes, w: State, k: nat, n: nat)
    requires Cipher(enc, dec) && Shaped(w, n) && n > 0 && k < 256
    ensures k % n <= n && Shaped(Steps(enc, w, k), n)
    ensures Shifts(enc, w, k) == State(Steps(enc, w, k).a, Rotate(Steps(enc, w, k).r, k % n))
  {
    hide Cipher, Step, Shift, Mark, MarkWord;
    StepsShaped(enc, dec, w, k, n);
    if k == 0 {
      assert w.r[0..] + w.r[..0] == w.r;
    } else {
      StepsShaped(enc, dec, w, k - 1, n);
      ShiftsRotated(enc, dec, w, k - 1, n);
      ShiftStep(enc, dec, Steps(enc, w, k - 1), k - 1, n);
    }
  }

  lemma {:induction false} NextIndex(k: nat, n: nat)
    requires n > 0
    ensures (k + 1) % n == if k % n + 1 == n then 0 else k % n + 1
  {
    var q, i := k / n, k % n;
    assert k == q * n + i;
    if i + 1 == n {
      assert (q + 1) * n == q * n + n;
      DivModUnique(k + 1, q + 1, n, 0);
    } else {
      DivModUnique(k + 1, q, n, i + 1);
    }
  }

  lemma {:induction false} ShiftStep(enc: Bytes -> Bytes, dec: Bytes -> Bytes, v: State, s: nat, n: nat)
    requires Cipher(enc, dec) && Shaped(v, n) && n > 0 && s + 1 < 256
    ensures (s + 1) % n <= n && |Step(enc, v, s).r| == n
    ensures Shift(enc, State(v.a, Rotate(v.r, s % n)), s + 1)
            == State(Step(enc, v, s).a, Rotate(Step(enc, v, s).r, (s + 1) % n))
  {
    hide Mark, MarkWord;
    var i := s % n;
    StepShaped(enc, dec, v, s, n);
    NextIndex(s, n);
    assert Rotate(v.r, i)[0] == v.r[i];
    var b := enc(v.a + v.r[i]);
    SmallCounter(b[..8], s + 1);
    RotateUpdate(v.r, i, b[8..]);
  }

  lemma {:induction false} RotateUpdate(r: seq<Bytes>, i: nat, x: Bytes)
    requires i < |r|
    ensures Rotate(r, i)[1..] + [x] == Rotate(r[i := x], i + 1)
    ensures Rotate(r[i := x], |r|) == Rotate(r[i := x], 0)
  {
  }

  lemma {:induction false} ManyTimes(k: nat, n: nat)
    requires n > 0
    ensures (k * n) % n == 0
  {
    DivModUnique(k * n, k, n, 0);
  }

  /** With fewer than 256 steps the loops do what the standard says, for every cipher. */
  lemma {:induction false} WrapIsStandard(enc: Bytes -> Bytes, dec: Bytes -> Bytes, r: seq<Bytes>)
    requires Cipher(enc, dec) && Shaped(State(IV, r), |r|) && 6 * |r| < 256
    ensures Wrap(enc, r) == StandardWrap(enc, r)
  {
    hide Cipher, Steps, Shifts;
    if r != [] {
      var w, n := State(IV, r), |r|;
      ShiftsRotated(enc, dec, w, 6 * n, n);
      ManyTimes(6, n);
      var x := Steps(enc, w, 6 * n).r;
      assert Rotate(x, 0) == x;
    }
  }

  // ----- Large counters

  function Identity(b: Bytes): Bytes {
    b
  }

  lemma {:induction false} IdentityCipher()
    ensures Cipher(Identity, Identity)
  {
  }

  /** Two consecutive counters differ in the last byte only, if the first is even. */
  lemma {:induction false} EvenCounter(t: nat, k: nat)
    requires t % 2 == 0 && k < 7
    ensures ByteOf(t + 1, k) == ByteOf(t, k)
  {
    hide Pow2;
    var m := 8 * (7 - k);
    assert Pow2(m) == 2 * Pow2(m - 1) by { PowStep(m); }
    SameQuotient(t, Pow2(m - 1));
  }

  lemma {:induction false} PowStep(m: nat)
    requires m > 0
    ensures Pow2(m) == 2 * Pow2(m - 1)
  {
  }

  lemma {:induction false} SameQuotient(t: nat, p: nat)
    requires t % 2 == 0 && p > 0
    ensures (t + 1) / (2 * p) == t / (2 * p)
  {
    DivDiv(t, 2, p);
    DivDiv(t + 1, 2, p);
    assert (t + 1) / 2 == t / 2;
  }

  /** Without encryption, the register of the standard collects the counters. */
  lemma {:induction false} Collected(w: State, n: nat, k: nat)
    requires |w.a| == 8 && |w.r| > 0 && (forall i :: 0 <= i < |w.r| ==> |w.r[i]| == 8) && n % 2 == 0 && k < 7
    ensures Shaped(Shifts(Identity, w, n), |w.r|)
    ensures Shifts(Identity, w, n).a[k] == XorByte(w.a[k], ByteOf(n, k))
  {
    hide XorByte, ByteOf;
    if n == 0 {
      assert ByteOf(0, k) == 0 by { HighByte(0, k); }
      XorNothing(w.a[k]);
    } else {
      Collected(w, n - 2, k);
      var v := Shifts(Identity, w, n - 2);
      var v1 := Shift(Identity, v, n - 1);
      Unencrypted(v, n - 1, k);
      Unencrypted(v1, n, k);
      EvenCounter(n - 2, k);
      XorByteTwice(w.a[k], ByteOf(n - 2, k));
    }
  }

  lemma {:induction false} Unencrypted(v: State, t: nat, k: nat)
    requires Shaped(v, |v.r|) && |v.r| > 0 && k < 8
    ensures Shaped(Shift(Identity, v, t), |v.r|) && Shift(Identity, v, t).a[k] == XorByte(v.a[k], ByteOf(t, k))
  {
    hide XorByte, ByteOf;
    assert (v.a + v.r[0])[..8] == v.a;
  }

  lemma {:induction false} XorNothing(a: byte)
    ensures XorByte(a, 0) == a
  {
  }

  lemma {:induction false} XorByteTwice(a: byte, b: byte)
    ensures XorByte(XorByte(a, b), b) == a
  {
    XorTwice(a, b);
  }

  /** Without encryption, the loops leave all but the last byte of the register alone. */
  lemma {:induction false} Uncollected(w: State, n: nat, k: nat)
    requires Shaped(w, |w.r|) && |w.r| > 0 && k < 7
    ensures Shaped(Steps(Identity, w, n), |w.r|) && Steps(Identity, w, n).a[k] == w.a[k]
  {
    hide XorByte;
    if n > 0 {
      Uncollected(w, n - 1, k);
      var v := Steps(Identity, w, n - 1);
      assert (v.a + v.r[(n - 1) % |w.r|])[..8] == v.a;
    }
  }

  lemma {:induction false} XorCommutes(a: nat, b: nat)
    ensures Xor(a, b) == Xor(b, a)
    decreases a + b
  {
    if a > 0 && b > 0 {
      XorCommutes(a / 2, b / 2);
    }
  }

  lemma {:induction false} XorChanges(a: byte, b: byte)
    requires b != 0
    ensures XorByte(a, b) != a
  {
    hide Xor;
    XorTwice(b, a);
    XorCommutes(a, b);
    XorSelf(a);
  }

  /** A counter of 256 or more has a byte other than the last. */
  lemma {:induction false} LargeCounter(t: nat) returns (k: nat)
    requires 256 <= t < Pow2(64)
    ensures k < 7 && ByteOf(t, k) != 0
  {
    hide Pow2;
    assert Pow2(8) == 256 by { Pow2Values(); }
    k := 6;
    while k > 0 && t >= Pow2(8 * (8 - k))
      invariant 0 <= k <= 6 && t >= Pow2(8 * (7 - k))
    {
      k := k - 1;
    }
    var p := Pow2(8 * (7 - k));
    Pow2Add(8, 8 * (7 - k));
    var q := t / p;
    assert t == q * p + t % p;
    assert t < 256 * p;
    QuotientRange(t, p, q);
  }

  lemma {:induction false} QuotientRange(t: nat, p: nat, q: int)
    requires p > 0 && t == q * p + t % p && p <= t < 256 * p
    ensures 1 <= q < 256 && q % 256 == q
  {
    if q <= 0 {
      MulMono(p, q, 0);
    }
    if q >= 256 {
      MulMono(p, 256, q);
    }
  }

  /** With 256 steps or more they do not: without encryption the registers differ. */
  lemma {:induction false} WrapIsNotStandard(r: seq<Bytes>)
    requires Shaped(State(IV, r), |r|) && 256 <= 6 * |r| < Pow2(64)
    ensures Cipher(Identity, Identity) && Wrap(Identity, r) != StandardWrap(Identity, r)
  {
    hide Pow2, ByteOf, XorByte, Shifts, Steps;
    IdentityCipher();
    var n, w := 6 * |r|, State(IV, r);
    var k := LargeCounter(n);
    Collected(w, n, k);
    Uncollected(w, n, k);
    XorChanges(IV[k], ByteOf(n, k));
  }

  /** The loops do what the standard says for every cipher and all blocks, exactly if there are fewer
      than 256 steps. */
  lemma {:induction false} StandardExactly(n: nat)
    requires 6 * n < Pow2(64)
    ensures 6 * n < 256 <==> forall enc: Bytes -> Bytes, dec: Bytes -> Bytes, r: seq<Bytes> ::
              Cipher(enc, dec) && |r| == n && Shaped(State(IV, r), n) ==> Wrap(enc, r) == StandardWrap(enc, r)
  {
    hide Pow2, Cipher, Wrap, StandardWrap;
    if 6 * n < 256 {
      forall enc: Bytes -> Bytes, dec: Bytes -> Bytes, r: seq<Bytes> | Cipher(enc, dec) && |r| == n
        && Shaped(State(IV, r), n)
        ensures Wrap(enc, r) == StandardWrap(enc, r)
      {
        WrapIsStandard(enc, dec, r);
      }
    } else {
      var r := seq(n, i => IV);
      WrapIsNotStandard(r);
    }
  }

  /** The standard starts and ends in the same way. */
  lemma {:induction false} StandardStarts(enc: Bytes -> Bytes, r: seq<Bytes>)
    requires r != []
    ensures var w0 := State([0xA6, 0xA6, 0xA6, 0xA6, 0xA6, 0xA6, 0xA6, 0xA6], r);
            StandardWrap(enc, r) == Shifts(enc, w0, 6 * |r|) && Shifts(enc, w0, 0) == w0
  {
    hide Shift;
  }

  /** Section 2.2.1 of RFC 3394 with registers that shift: the first half of what is encrypted is combined with the
      step counter as a 64-bit number, most significant byte first, and the second half comes in at the end. */
  lemma {:induction false} StandardSteps(enc: Bytes -> Bytes, dec: Bytes -> Bytes, w0: State, n: nat, t: nat)
    requires Cipher(enc, dec) && Shaped(w0, n) && n > 0 && t > 0
    ensures var w, w' := Shifts(enc, w0, t - 1), Shifts(enc, w0, t);
            && |w.r| == n
            && var b := enc(w.a + w.r[0]);
               && |b| == 16 && w'.r == w.r[1..] + [b[8..]] && |w'.a| == 8
               && forall k :: 0 <= k < 8 ==> w'.a[k] == XorByte(b[k], (t / Pow2(8 * (7 - k))) % 256)
  {
    hide XorByte, Pow2;
    ShiftsShaped(enc, dec, w0, t - 1, n);
  }

  lemma {:induction false} ShiftsShaped(enc: Bytes -> Bytes, dec: Bytes -> Bytes, w: State, k: nat, n: nat)
    requires Cipher(enc, dec) && Shaped(w, n) && n > 0
    ensures Shaped(Shifts(enc, w, k), n)
  {
    hide MarkWord;
    if k > 0 {
      ShiftsShaped(enc, dec, w, k - 1, n);
    }
  }
}
