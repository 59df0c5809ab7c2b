/** Bit sequences and the machine arithmetic the decompressor does on them.

    The compressed stream is a sequence of bits, lowest bit of each byte first.  A run of bits
    is read as a number in two ways: `Lsb` takes the first bit as the least significant one
    (plain DEFLATE fields), `Msb` takes it as the most significant one (Huffman codes).
  */
module Bits {

  type byte = x: int | 0 <= x < 0x100
  type uint32 = x: int | 0 <= x < 0x1_0000_0000

  datatype Option<+T> = None | Some(value: T)

  function Min(a: nat, b: nat): nat {
    if a < b then a else b
  }

  function Pow2(n: nat): (r: nat)
    ensures r > 0
  {
    if n == 0 then 1 else 2 * Pow2(n - 1)
  }

  function Bit(b: bool): nat {
    if b then 1 else 0
  }

  /** Value of a bit sequence whose first bit is the least significant. */
  function Lsb(b: seq<bool>): nat {
    if b == [] then 0 else Bit(b[0]) + 2 * Lsb(b[1..])
  }

  /** Value of a bit sequence whose first bit is the most significant. */
  function Msb(b: seq<bool>): nat {
    if b == [] then 0 else 2 * Msb(b[..|b| - 1]) + Bit(b[|b| - 1])
  }

  /** The `n` low bits of `x`, least significant first. */
  function ToBits(x: nat, n: nat): (b: seq<bool>)
    ensures |b| == n
  {
    seq(n, (i: nat) => (x / Pow2(i)) % 2 == 1)
  }

  /** The `n` low bits of `x`, most significant first. */
  function ToBitsMsb(x: nat, n: nat): (b: seq<bool>)
    ensures |b| == n
  {
    seq(n, (i: nat) requires i < n => (x / Pow2(n - 1 - i)) % 2 == 1)
  }

  /** The bits of a byte string in the order in which DEFLATE reads them. */
  function BytesToBits(s: seq<byte>): (b: seq<bool>)
    ensures |b| == 8 * |s|
  {
    if s == [] then [] else ToBits(s[0], 8) + BytesToBits(s[1..])
  }

  /** Bitwise inclusive or. */
  function Or(a: nat, b: nat): nat
    decreases a + b
  {
    if a == 0 then b else if b == 0 then a
    else Bit(a % 2 == 1 || b % 2 == 1) + 2 * Or(a / 2, b / 2)
  }

  /** `x << n` in a 32-bit register. */
  function Shl32(x: nat, n: nat): (r: uint32) {
    (x * Pow2(n)) % 0x1_0000_0000
  }

  /** `x >> n`. */
  function Shr(x: nat, n: nat): nat {
    DivNonnegative(x, Pow2(n));
    x / Pow2(n)
  }

  lemma {:induction false} DivNonnegative(x: nat, d: nat)
    requires d > 0
    ensures x / d >= 0
  {
  }

  lemma {:induction false} PowZero()
    ensures Pow2(0) == 1
  {
  }

  lemma {:induction false} Pow2Add(m: nat, n: nat)
    ensures Pow2(m + n) == Pow2(m) * Pow2(n)
  {
    if m > 0 {
      Pow2Add(m - 1, n);
      MulAssoc(2, Pow2(m - 1), Pow2(n));
    }
  }

  lemma {:induction false} Pow2Even(n: nat)
    requires n > 0
    ensures Pow2(n) % 2 == 0 && Pow2(n) > 1
  {
    assert Pow2(n) == 2 * Pow2(n - 1);
  }

  lemma {:induction false} Pow2Monotone(m: nat, n: nat)
    requires m <= n
    ensures Pow2(m) <= Pow2(n)
  {
    Pow2Add(m, n - m);
    MulGeq(Pow2(m), Pow2(n - m));
  }

  lemma {:induction false} MulGeq(a: nat, b: nat)
    requires b >= 1
    ensures a <= a * b
  {
    var c := b - 1;
    assert a * b == a * c + a;
    assert a * c >= 0;
  }

  lemma {:induction false} Pow2Values()
    ensures Pow2(1) == 2 && Pow2(2) == 4 && Pow2(3) == 8 && Pow2(4) == 16
    ensures Pow2(5) == 32 && Pow2(6) == 64 && Pow2(7) == 128 && Pow2(8) == 256 && Pow2(9) == 512
    ensures Pow2(13) == 0x2000 && Pow2(14) == 0x4000 && Pow2(15) == 0x8000 && Pow2(16) == 0x1_0000
    ensures Pow2(24) == 0x100_0000 && Pow2(32) == 0x1_0000_0000
  {
    assert Pow2(4) == 16 && Pow2(8) == 256;
    Pow2Add(8, 8); Pow2Add(16, 16); Pow2Add(8, 16);
    assert Pow2(14) == 2 * Pow2(13) && Pow2(15) == 2 * Pow2(14) && Pow2(16) == 2 * Pow2(15);
  }

  lemma {:induction false} MulMono(a: nat, b: int, c: int)
    requires b <= c
    ensures a * b <= a * c && b * a <= c * a
  {
    var d := c - b;
    assert a * c == a * b + a * d;
    assert a * d >= 0;
    MulCommutes(a, b);
    MulCommutes(a, c);
  }

  lemma {:induction false} Distribute(a: int, b: int, c: int)
    ensures (a + b) * c == a * c + b * c
  {
  }

  lemma {:induction false} MulCommutes(a: int, b: int)
    ensures a * b == b * a
  {
  }

  lemma {:induction false} MulAssoc(a: int, b: int, c: int)
    ensures (a * b) * c == a * (b * c)
  {
  }

  lemma {:induction false} DivMod(q: int, d: int, r: int)
    requires 0 <= r < d
    ensures (q * d + r) / d == q && (q * d + r) % d == r
  {
    DivModUnique(q * d + r, q, d, r);
  }

  /** Quotient and remainder are the only pair with the remainder in range. */
  lemma {:induction false} DivModUnique(x: int, q: int, d: int, r: int)
    requires 0 <= r < d && x == q * d + r
    ensures x / d == q && x % d == r
  {
    var k := x / d - q;
    assert d * k == r - x % d;
    MultipleSize(d, k);
  }

  lemma {:induction false} MultipleSize(d: nat, k: int)
    ensures k >= 1 ==> d * k >= d
    ensures k <= -1 ==> d * k + d <= 0
  {
    if k >= 1 {
      MulGeq(d, k);
    } else if k <= -1 {
      MulGeq(d, -k);
    }
  }

  // ----- Lsb

  lemma {:induction false} LsbBound(b: seq<bool>)
    ensures Lsb(b) < Pow2(|b|)
  {
    if b != [] {
      LsbBound(b[1..]);
    }
  }

  lemma {:induction false} LsbAppend(a: seq<bool>, b: seq<bool>)
    ensures Lsb(a + b) == Lsb(a) + Pow2(|a|) * Lsb(b)
  {
    if a == [] {
      assert a + b == b;
    } else {
      assert (a + b)[1..] == a[1..] + b;
      LsbAppend(a[1..], b);
      MulAssoc(2, Pow2(|a| - 1), Lsb(b));
    }
  }

  /** Reading `n` low bits and shifting them out is splitting the sequence at `n`. */
  lemma {:induction false} LsbSplit(b: seq<bool>, n: nat)
    requires n <= |b|
    ensures Lsb(b[..n]) == Lsb(b) % Pow2(n)
    ensures Lsb(b[n..]) == Lsb(b) / Pow2(n)
  {
    hide Lsb, Pow2;
    assert b == b[..n] + b[n..];
    LsbAppend(b[..n], b[n..]);
    LsbBound(b[..n]);
    MulCommutes(Pow2(n), Lsb(b[n..]));
    DivModUnique(Lsb(b), Lsb(b[n..]), Pow2(n), Lsb(b[..n]));
  }

  lemma {:induction false} DivDiv(x: nat, a: nat, b: nat)
    requires a > 0 && b > 0
    ensures a * b > 0 && (x / a) / b == x / (a * b)
  {
    var q, r := x / a, x % a;
    var q', r' := q / b, q % b;
    assert x == q * a + r && q == q' * b + r';
    assert x == q' * (a * b) + (r' * a + r) by {
      assert (q' * b + r') * a == q' * b * a + r' * a;
      MulAssoc(q', b, a);
      MulCommutes(a, b);
    }
    assert r' * a + r < a * b by {
      MulMono(a, r' + 1, b);
      Distribute(r', 1, a);
      MulCommutes(a, b);
    }
    DivModUnique(x, q', a * b, r' * a + r);
  }

  lemma {:induction false} ToBitsStep(x: nat, n: nat)
    requires n > 0
    ensures ToBits(x, n) == [x % 2 == 1] + ToBits(x / 2, n - 1)
  {
    assert ToBits(x, n)[0] == (x % 2 == 1) by { assert Pow2(0) == 1; assert x / 1 == x; }
    forall i | 0 < i < n ensures ToBits(x, n)[i] == ToBits(x / 2, n - 1)[i - 1] {
      DivDiv(x, 2, Pow2(i - 1));
      assert Pow2(i) == 2 * Pow2(i - 1);
    }
  }

  lemma {:induction false} LsbToBits(x: nat, n: nat)
    requires x < Pow2(n)
    ensures Lsb(ToBits(x, n)) == x
  {
    if n > 0 {
      LsbToBits(x / 2, n - 1);
      ToBitsStep(x, n);
      assert ToBits(x, n)[1..] == ToBits(x / 2, n - 1);
    }
  }

  lemma {:induction false} ByteValue(x: byte)
    ensures Lsb(ToBits(x, 8)) == x
  {
    Pow2Values();
    LsbToBits(x, 8);
  }

  // ----- Msb

  lemma {:induction false} MsbBound(b: seq<bool>)
    ensures Msb(b) < Pow2(|b|)
  {
    if b != [] {
      MsbBound(b[..|b| - 1]);
    }
  }

  lemma {:induction false} MsbAppend(a: seq<bool>, b: seq<bool>)
    ensures Msb(a + b) == Msb(a) * Pow2(|b|) + Msb(b)
  {
    if b == [] {
      assert a + b == a;
    } else {
      var m := |b| - 1;
      assert (a + b)[..|a + b| - 1] == a + b[..m];
      assert (a + b)[|a + b| - 1] == b[m];
      MsbAppend(a, b[..m]);
      MulAssoc(Msb(a), Pow2(m), 2);
    }
  }

  lemma {:induction false} ToBitsMsbStep(x: nat, n: nat)
    requires n > 0
    ensures ToBitsMsb(x, n) == ToBitsMsb(x / 2, n - 1) + [x % 2 == 1]
  {
    assert ToBitsMsb(x, n)[n - 1] == (x % 2 == 1) by { assert Pow2(0) == 1; assert x / 1 == x; }
    forall i | 0 <= i < n - 1 ensures ToBitsMsb(x, n)[i] == ToBitsMsb(x / 2, n - 1)[i] {
      DivDiv(x, 2, Pow2(n - 2 - i));
      assert Pow2(n - 1 - i) == 2 * Pow2(n - 2 - i);
    }
  }

  lemma {:induction false} MsbToBits(x: nat, n: nat)
    requires x < Pow2(n)
    ensures Msb(ToBitsMsb(x, n)) == x
  {
    if n > 0 {
      MsbToBits(x / 2, n - 1);
      ToBitsMsbStep(x, n);
      assert ToBitsMsb(x, n)[..n - 1] == ToBitsMsb(x / 2, n - 1);
    }
  }

  /** The leading `k` bits of a value that was shifted up to a register of `w` bits. */
  lemma {:induction false} MsbLeading(b: seq<bool>, k: nat, w: nat)
    requires k <= |b| <= w
    ensures Msb(b[..k]) == (Msb(b) * Pow2(w - |b|)) / Pow2(w - k)
  {
    var n := |b|;
    assert b == b[..k] + b[k..];
    MsbAppend(b[..k], b[k..]);
    MsbBound(b[k..]);
    Pow2Add(n - k, w - n);
    ScaledDiv(Msb(b[..k]), Msb(b[k..]), Pow2(n - k), Pow2(w - n));
  }

  lemma {:induction false} ScaledDiv(hi: nat, lo: nat, p: nat, q: nat)
    requires lo < p && q > 0
    ensures p * q > 0 && ((hi * p + lo) * q) / (p * q) == hi
  {
    MulAssoc(hi, p, q);
    MulLess(lo, p, q);
    DivMod(hi, p * q, lo * q);
  }

  lemma {:induction false} MulLess(a: nat, b: nat, c: nat)
    requires a < b && c > 0
    ensures a * c < b * c
  {
    assert b * c - a * c == (b - a) * c;
    MulGeq(c, b - a);
    assert (b - a) * c == c * (b - a);
  }

  // ----- Or

  lemma {:induction false} OrCommutes(a: nat, b: nat)
    ensures Or(a, b) == Or(b, a)
    decreases a + b
  {
    if a != 0 && b != 0 {
      OrCommutes(a / 2, b / 2);
    }
  }

  /** Or-ing in bits above position `k` adds them when the other operand lies below `k`. */
  lemma {:induction false} OrDisjoint(a: nat, b: nat, k: nat)
    requires a < Pow2(k)
    ensures Or(a, b * Pow2(k)) == a + b * Pow2(k)
    decreases k
  {
    if k > 0 && a != 0 && b * Pow2(k) != 0 {
      var c := b * Pow2(k - 1);
      assert b * Pow2(k) == 2 * c;
      OrDisjoint(a / 2, b, k - 1);
    }
  }

  // ----- bytes

  lemma {:induction false} BytesToBitsAppend(a: seq<byte>, b: seq<byte>)
    ensures BytesToBits(a + b) == BytesToBits(a) + BytesToBits(b)
  {
    if a == [] {
      assert a + b == b;
    } else {
      assert (a + b)[1..] == a[1..] + b;
      BytesToBitsAppend(a[1..], b);
    }
  }
}
