/** Integer square root, one bit of the root at a time. */
module Isqrt {
  import opened Bits

  /** `r` is the integer square root of `v`. */
  ghost predicate IsRoot(v: nat, r: nat) {
    r * r <= v < (r + 1) * (r + 1)
  }

  /** Bits `k` and below of the root are still to be found, where `k` is -1 at the end: `m` is what
      is above them, `rest` is what the square of the root so far leaves of `v`, and `result` and
      `bit` are scaled accordingly. */
  ghost predicate Scan(v: nat, m: nat, k: int, rest: int, result: int, bit: int) {
    if k < 0 then bit == 0 && result == m && rest == v - m * m && v < (m + 1) * (m + 1)
    else
      var h := Pow2(k);
      var root := m * (2 * h);
      bit == h * h && result == 2 * h * root && rest == v - root * root && v < (root + 2 * h) * (root + 2 * h)
  }

  lemma {:induction false} Square(a: int, b: int)
    ensures (a + b) * (a + b) == a * a + (2 * b * a + b * b)
  {
    assert (a + b) * (a + b) == a * a + a * b + b * a + b * b;
    assert 2 * b * a == b * a + b * a;
  }

  lemma {:induction false} SquareMono(a: nat, b: nat)
    requires a <= b
    ensures a * a <= b * b
  {
    MulMono(a, a, b);
    MulMono(b, a, b);
    MulCommutes(a, b);
  }

  /** The root with the next bit added, and without. */
  lemma {:induction false} NextRoot(m: nat, h: nat)
    ensures (2 * m) * h == m * (2 * h) && (2 * m + 1) * h == m * (2 * h) + h
  {
  }

  /** The value of `bit` for the next lower place. */
  lemma {:induction false} NextBit(k: nat)
    ensures k > 0 ==> Pow2(k) == 2 * Pow2(k - 1) && Pow2(k) * Pow2(k) / 4 == Pow2(k - 1) * Pow2(k - 1)
    ensures k == 0 ==> Pow2(k) * Pow2(k) / 4 == 0 && Pow2(k) == 1
  {
    if k > 0 {
      var h := Pow2(k - 1);
      assert (2 * h) * (2 * h) == 4 * (h * h);
    }
  }

  /** One bit of the root. */
  lemma {:induction false} ScanStep(v: nat, m: nat, k: nat, rest: int, result: int, bit: int)
    requires Scan(v, m, k, rest, result, bit)
    ensures rest >= result + bit ==> Scan(v, 2 * m + 1, k - 1, rest - (result + bit), result / 2 + bit, bit / 4)
    ensures rest < result + bit ==> Scan(v, 2 * m, k - 1, rest, result / 2, bit / 4)
  {
    hide Pow2;
    var h := Pow2(k);
    var root := m * (2 * h);
    NextBit(k);
    NextRoot(m, h);
    Square(root, h);
    Halves(root, h);
    assert root + h + h == root + 2 * h;
  }

  lemma {:induction false} Halves(root: int, h: int)
    ensures (2 * h * root) / 2 == h * root && h * root + h * h == h * (root + h)
  {
    assert 2 * h * root == 2 * (h * root);
  }

  /** No intermediate value leaves a word of `2 * w` bits. */
  lemma {:induction false} ScanFits(v: nat, m: nat, k: nat, rest: int, result: int, bit: int, w: nat)
    requires Scan(v, m, k, rest, result, bit) && k < w && v < Pow2(w) * Pow2(w) && rest >= 0
    ensures 0 <= result && result + bit < Pow2(w) * Pow2(w)
  {
    hide Pow2;
    var h, p := Pow2(k), Pow2(w);
    Nonnegative(m, 2 * h);
    RootBelow(v, m, h, p, k, w);
    Small(m * (2 * h), h, p);
  }

  lemma {:induction false} Nonnegative(a: nat, b: nat)
    ensures a * b >= 0
  {
  }

  lemma {:induction false} Small(root: nat, h: nat, p: nat)
    requires h > 0 && root + 2 * h <= p
    ensures 0 <= 2 * h * root && 2 * h * root + h * h < p * p
  {
    Nonnegative(2 * h, root);
    Nonnegative(root, root);
    Square(root, h);
    SquareMono(root + h, p - 1);
    Square(p, -1);
  }

  lemma {:induction false} RootBelow(v: nat, m: nat, h: nat, p: nat, k: nat, w: nat)
    requires h == Pow2(k) && p == Pow2(w) && k < w && (m * (2 * h)) * (m * (2 * h)) <= v < p * p
    ensures m * (2 * h) + 2 * h <= p
  {
    hide Pow2;
    var s, root := 2 * h, m * (2 * h);
    assert root < p by {
      if root >= p {
        SquareMono(p, root);
      }
    }
    Pow2Add(k + 1, w - k - 1);
    assert Pow2(k + 1) == 2 * Pow2(k) by { NextBit(k + 1); }
    var q := Pow2(w - k - 1);
    MulCommutes(m, s);
    if m >= q {
      MulMono(s, q, m);
    } else {
      MulMono(s, m + 1, q);
      assert s * (m + 1) == s * m + s;
    }
  }

  /** Below the first place where the bit is no larger than the value, the root is zero. */
  lemma {:induction false} FirstPlace(v: nat, k: nat)
    requires v < (2 * Pow2(k)) * (2 * Pow2(k))
    ensures Scan(v, 0, k, v, 0, Pow2(k) * Pow2(k))
    ensures v < Pow2(k) * Pow2(k) && k > 0 ==> v < (2 * Pow2(k - 1)) * (2 * Pow2(k - 1))
    ensures v < Pow2(k) * Pow2(k) && k == 0 ==> Scan(v, 0, -1, v, 0, 0)
  {
    hide Pow2;
    NextBit(k);
    assert 0 * (2 * Pow2(k)) == 0;
    assert 2 * Pow2(k) * 0 == 0;
  }

  /** Unsigned arithmetic of a machine word, which wraps around. */
  function Plus(a: nat, b: nat, word: nat): nat
    requires word > 0
  {
    (a + b) % word
  }

  function Minus(a: nat, b: nat, word: nat): nat
    requires word > 0
  {
    (a - b) % word
  }

  lemma {:induction false} NoWrap(x: int, word: nat)
    requires 0 <= x < word
    ensures x % word == x
  {
    DivModUnique(x, 0, word, x);
  }

  /** The square root of a word of `2 * w` bits.  All arithmetic is modulo the word and never wraps. */
  method SquareRoot(value: nat, w: nat) returns (result: nat)
    requires w > 0 && value < Pow2(w) * Pow2(w)
    ensures IsRoot(value, result)
  {
    hide Pow2, Scan, Plus, Minus;
    NextBit(w);
    var word := Pow2(w) * Pow2(w);
    ghost var k := w - 1;
    var bit := Pow2(w - 1) * Pow2(w - 1);
    FirstPlace(value, k);
    while bit > value
      invariant -1 <= k < w && Scan(value, 0, k, value, 0, bit) && (k < 0 ==> bit == 0)
      invariant k >= 0 ==> bit == Pow2(k) * Pow2(k) && value < (2 * Pow2(k)) * (2 * Pow2(k))
      decreases k
    {
      FirstPlace(value, k);
      NextBit(k);
      k := k - 1;
      bit := bit / 4;
      if k >= 0 {
        FirstPlace(value, k);
      }
    }
    var rest, r: nat := value, 0;
    ghost var m := 0;
    ScanBit(value, m, k, rest, r, bit);
    while bit > 0
      invariant -1 <= k < w && 0 <= m && 0 <= rest <= value && Scan(value, m, k, rest, r, bit) && (bit > 0 <==> k >= 0)
      decreases k
    {
      ScanFits(value, m, k, rest, r, bit, w);
      ScanStep(value, m, k, rest, r, bit);
      assert Plus(r, bit, word) == r + bit by { PlusIs(r, bit, word); }
      if rest >= Plus(r, bit, word) {
        assert Minus(rest, r + bit, word) == rest - (r + bit) by { MinusIs(rest, r + bit, word); }
        assert Plus(r / 2, bit, word) == r / 2 + bit by { PlusIs(r / 2, bit, word); }
        rest := Minus(rest, Plus(r, bit, word), word);
        r := Plus(r / 2, bit, word);
        m := 2 * m + 1;
      } else {
        r := r / 2;
        m := 2 * m;
      }
      bit := bit / 4;
      k := k - 1;
      ScanBit(value, m, k, rest, r, bit);
    }
    ScanEnds(value, m, rest, r, bit);
    result := r;
  }

  lemma {:induction false} PlusIs(a: nat, b: nat, word: nat)
    requires a + b < word
    ensures Plus(a, b, word) == a + b
  {
    NoWrap(a + b, word);
  }

  lemma {:induction false} MinusIs(a: nat, b: nat, word: nat)
    requires b <= a < word
    ensures Minus(a, b, word) == a - b
  {
    NoWrap(a - b, word);
  }

  lemma {:induction false} ScanBit(v: nat, m: nat, k: int, rest: int, result: int, bit: int)
    requires Scan(v, m, k, rest, result, bit)
    ensures bit >= 0 && (bit > 0 <==> k >= 0)
  {
    if k >= 0 {
      assert Pow2(k) * Pow2(k) > 0;
    }
  }

  lemma {:induction false} ScanEnds(v: nat, m: nat, rest: int, result: int, bit: int)
    requires Scan(v, m, -1, rest, result, bit) && rest >= 0
    ensures result >= 0 && IsRoot(v, result)
  {
  }

  /** There is only one such number. */
  lemma {:induction false} RootUnique(v: nat, r: nat, s: nat)
    requires IsRoot(v, r) && IsRoot(v, s)
    ensures r == s
  {
    if r < s {
      SquareMono(r + 1, s);
    } else if s < r {
      SquareMono(s + 1, r);
    }
  }
}
