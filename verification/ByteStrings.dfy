/** Strings of bytes. */
module ByteStrings {
  import opened Bits

  type Bytes = seq<byte>

  /** Memory with some bytes stored at an address. */
  function Put(m: Bytes, to: nat, x: Bytes): (m': Bytes)
    requires to + |x| <= |m|
    ensures |m'| == |m| && m'[to..to + |x|] == x
    ensures forall y :: 0 <= y < |m| && !(to <= y < to + |x|) ==> m'[y] == m[y]
  {
    m[..to] + x + m[to + |x|..]
  }

  lemma {:induction false} SliceOfSlice(m: Bytes, at: nat, n: nat, lo: nat, hi: nat)
    requires lo <= hi <= n && at + n <= |m|
    ensures m[at..at + n][lo..hi] == m[at + lo..at + hi]
  {
    var a, b := m[at..at + n][lo..hi], m[at + lo..at + hi];
    assert forall k :: 0 <= k < hi - lo ==> a[k] == b[k];
  }

  /** Exclusive or. */
  function Xor(a: nat, b: nat): nat
    decreases a + b
  {
    if a == 0 then b else if b == 0 then a
    else (if a % 2 != b % 2 then 1 else 0) + 2 * Xor(a / 2, b / 2)
  }

  lemma {:induction false} XorBound(a: nat, b: nat, k: nat)
    requires a < Pow2(k) && b < Pow2(k)
    ensures Xor(a, b) < Pow2(k)
  {
    if k > 0 && a > 0 && b > 0 {
      XorBound(a / 2, b / 2, k - 1);
    }
  }

  lemma {:induction false} XorTwice(a: nat, b: nat)
    ensures Xor(Xor(a, b), b) == a
    decreases a + b
  {
    if a > 0 && b > 0 {
      XorTwice(a / 2, b / 2);
      var x := Xor(a, b);
      assert x / 2 == Xor(a / 2, b / 2) && x % 2 == if a % 2 != b % 2 then 1 else 0;
    } else {
      XorSelf(b);
    }
  }

  lemma {:induction false} XorSelf(b: nat)
    ensures Xor(b, b) == 0
  {
    if b > 0 {
      XorSelf(b / 2);
    }
  }

  /** Exclusive or of two bytes. */
  function XorByte(a: byte, b: byte): byte {
    assert Pow2(8) == 256 by { Pow2Values(); }
    XorBound(a, b, 8);
    Xor(a, b)
  }

  /** Exclusive or, bit by bit. */
  lemma {:induction false} XorBits(a: nat, b: nat, i: nat)
    ensures (Xor(a, b) / Pow2(i)) % 2 == 1 <==> (a / Pow2(i)) % 2 != (b / Pow2(i)) % 2
    decreases i
  {
    XorHalf(a, b);
    if i == 0 {
      PowZero();
      assert Xor(a, b) / 1 == Xor(a, b) && a / 1 == a && b / 1 == b;
    } else {
      XorBits(a / 2, b / 2, i - 1);
      assert Pow2(i) == 2 * Pow2(i - 1);
      DivDiv(Xor(a, b), 2, Pow2(i - 1));
      DivDiv(a, 2, Pow2(i - 1));
      DivDiv(b, 2, Pow2(i - 1));
    }
  }

  lemma {:induction false} XorHalf(a: nat, b: nat)
    ensures Xor(a, b) / 2 == Xor(a / 2, b / 2) && (Xor(a, b) % 2 == 1 <==> a % 2 != b % 2)
  {
  }
}
