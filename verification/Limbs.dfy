/** Numbers as sequences of 32-bit elements, least significant first. */
module Limbs {
  import opened Bits

  const BASE: nat := 0x1_0000_0000

  /** The weight of element `n`. */
  function Weight(n: nat): (w: nat)
    ensures w > 0
  {
    if n == 0 then 1 else Positive(BASE, Weight(n - 1)); BASE * Weight(n - 1)
  }

  lemma {:induction false} Positive(a: nat, b: nat)
    requires a > 0 && b > 0
    ensures a * b > 0
  {
  }

  function Value(s: seq<uint32>): (v: nat) {
    if s == [] then 0 else s[0] + BASE * Value(s[1..])
  }

  lemma {:induction false} ValueAppend(a: seq<uint32>, b: seq<uint32>)
    ensures Value(a + b) == Value(a) + Weight(|a|) * Value(b)
  {
    if a == [] {
      assert a + b == b;
    } else {
      assert (a + b)[1..] == a[1..] + b;
      ValueAppend(a[1..], b);
      MulAssoc(BASE, Weight(|a| - 1), Value(b));
    }
  }

  lemma {:induction false} ValueOne(x: uint32)
    ensures Value([x]) == x
  {
    assert [x][1..] == [];
  }

  lemma {:induction false} ValueSnoc(s: seq<uint32>, i: nat)
    requires i < |s|
    ensures Value(s[..i + 1]) == Value(s[..i]) + Weight(i) * s[i]
  {
    hide Value, Weight;
    assert s[..i + 1] == s[..i] + [s[i]];
    ValueAppend(s[..i], [s[i]]);
    ValueOne(s[i]);
  }

  lemma {:induction false} ValueSplit(s: seq<uint32>, i: nat)
    requires i <= |s|
    ensures Value(s) == Value(s[..i]) + Weight(i) * Value(s[i..])
  {
    hide Value, Weight;
    assert s == s[..i] + s[i..];
    ValueAppend(s[..i], s[i..]);
  }

  lemma {:induction false} WeightAdd(a: nat, b: nat)
    ensures Weight(a + b) == Weight(a) * Weight(b)
  {
    if a > 0 {
      WeightAdd(a - 1, b);
      MulAssoc(BASE, Weight(a - 1), Weight(b));
    }
  }

  lemma {:induction false} WeightIsPow2(n: nat)
    ensures Weight(n) == Pow2(32 * n)
  {
    if n > 0 {
      WeightIsPow2(n - 1);
      Pow2Add(32, 32 * (n - 1));
      Pow2Values();
    }
  }

  lemma {:induction false} ValueBound(s: seq<uint32>)
    ensures Value(s) < Weight(|s|)
  {
    if s != [] {
      ValueBound(s[1..]);
      var a, b := Value(s[1..]), Weight(|s| - 1);
      assert BASE * (a + 1) <= BASE * b;
    }
  }

  /** Replacing one element. */
  lemma {:induction false} ValueUpdate(s: seq<uint32>, i: nat, y: uint32)
    requires i < |s|
    ensures Value(s[i := y]) == Value(s) + Weight(i) * (y - s[i])
  {
    hide Value, Weight;
    var t := s[i := y];
    ValueSplit(s, i + 1);
    ValueSplit(t, i + 1);
    ValueSnoc(s, i);
    ValueSnoc(t, i);
    assert t[..i] == s[..i] && t[i + 1..] == s[i + 1..];
    assert Weight(i) * (y - s[i]) == Weight(i) * y - Weight(i) * s[i];
  }

  lemma {:induction false} ValueZeros(n: nat)
    ensures Value(seq(n, i => 0)) == 0
  {
    if n > 0 {
      assert seq(n, i => 0)[1..] == seq(n - 1, i => 0);
      ValueZeros(n - 1);
    }
  }

  lemma {:induction false} ValueInjective(a: seq<uint32>, b: seq<uint32>)
    requires |a| == |b| && Value(a) == Value(b)
    ensures a == b
  {
    if a != [] {
      assert a[0] == b[0] && Value(a[1..]) == Value(b[1..]) by {
        SameDigits(a[0], Value(a[1..]), b[0], Value(b[1..]));
      }
      ValueInjective(a[1..], b[1..]);
      assert a == [a[0]] + a[1..] && b == [b[0]] + b[1..];
    }
  }

  lemma {:induction false} SameDigits(x: uint32, p: nat, y: uint32, q: nat)
    requires x + BASE * p == y + BASE * q
    ensures x == y && p == q
  {
  }
}
