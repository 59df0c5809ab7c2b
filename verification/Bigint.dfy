/** Arithmetic on big integers in place: subtraction, rotation, comparison and multiplication on
    arrays of elements, and modular multiplication and exponentiation built from them.
  */
module Bigint {
  import opened Bits
  import opened Limbs

  // ----- One element at a time

  /** One element of a subtraction with borrow, at weight `w`. */
  lemma {:induction false} BorrowStep(w: nat, x: uint32, t: uint32, b: nat, y: uint32, b': nat)
    requires y == x - t - b + BASE * b'
    ensures w * y == w * x - w * t - b * w + b' * (BASE * w)
  {
    var z := x - t - b + BASE * b';
    assert w * z == w * x - w * t - w * b + w * (BASE * b');
    assert w * (BASE * b') == b' * (BASE * w);
  }

  /** Subtract in place. */
  method Subtract(subtrahend: array<uint32>, value: array<uint32>) returns (ghost borrow: nat)
    requires subtrahend.Length == value.Length && subtrahend != value
    modifies value
    ensures borrow <= 1
    ensures Value(value[..]) == old(Value(value[..])) - Value(subtrahend[..]) + borrow * Weight(value.Length)
  {
    hide Value, Weight;
    var b := 0;
    ghost var old_ := value[..];
    assert Value([]) == 0 && Weight(0) == 1 by { Nothing(); }
    assert old_[..0] == [] && subtrahend[..0] == [] && value[..0] == [];
    for i := 0 to value.Length
      invariant 0 <= b <= 1 && value[i..] == old_[i..]
      invariant Value(value[..i]) == Value(old_[..i]) - Value(subtrahend[..i]) + b * Weight(i)
    {
      var x, t := value[i], subtrahend[i];
      assert old_[i..][0] == x;
      var d := x - t - b;
      var b' := if d < 0 then 1 else 0;
      ghost var before := value[..i];
      value[i] := d + BASE * b';
      BorrowStep(Weight(i), x, t, b, value[i], b');
      assert value[..][..i] == before && value[..][..i + 1] == value[..i + 1] && subtrahend[..][..i] == subtrahend[..i]
             && subtrahend[..][..i + 1] == subtrahend[..i + 1];
      ValueSnoc(value[..], i);
      ValueSnoc(old_, i);
      ValueSnoc(subtrahend[..], i);
      assert Weight(i + 1) == BASE * Weight(i) by { WeightNext(i); }
      b := b';
    }
    borrow := b;
    assert value[..value.Length] == value[..] && old_[..value.Length] == old_
           && subtrahend[..value.Length] == subtrahend[..];
  }

  lemma {:induction false} Nothing()
    ensures Value([]) == 0 && Weight(0) == 1
  {
  }

  lemma {:induction false} WeightNext(i: nat)
    ensures Weight(i + 1) == BASE * Weight(i)
  {
  }

  /** Subtraction of a number that is not larger. */
  lemma {:induction false} NoBorrow(v: nat, a: nat, b: nat, borrow: nat, w: nat)
    requires v == a - b + borrow * w && borrow <= 1 && v < w && b <= a
    ensures v == a - b
  {
  }

  /** Rotate left by one bit. */
  method RotateLeft(value: array<uint32>) returns (ghost carry: nat)
    modifies value
    ensures carry <= 1
    ensures Value(value[..]) + carry * Weight(value.Length) == 2 * old(Value(value[..]))
  {
    hide Value, Weight;
    var c := 0;
    ghost var old_ := value[..];
    assert Value([]) == 0 && Weight(0) == 1 by { Nothing(); }
    assert old_[..0] == [] && value[..0] == [];
    for i := 0 to value.Length
      invariant 0 <= c <= 1 && value[i..] == old_[i..]
      invariant Value(value[..i]) + c * Weight(i) == 2 * Value(old_[..i])
    {
      var x := value[i];
      assert old_[i..][0] == x;
      var d := 2 * x + c;
      var c' := if d >= BASE then 1 else 0;
      ghost var before := value[..i];
      value[i] := d - BASE * c';
      CarryStep(Weight(i), x, c, value[i], c');
      assert value[..][..i] == before && value[..][..i + 1] == value[..i + 1];
      ValueSnoc(value[..], i);
      ValueSnoc(old_, i);
      assert Weight(i + 1) == BASE * Weight(i) by { WeightNext(i); }
      c := c';
    }
    carry := c;
    assert value[..value.Length] == value[..] && old_[..value.Length] == old_;
  }

  lemma {:induction false} CarryStep(w: nat, x: uint32, c: nat, y: uint32, c': nat)
    requires y == 2 * x + c - BASE * c'
    ensures w * y + c' * (BASE * w) == 2 * (w * x) + c * w
  {
    var z := 2 * x + c - BASE * c';
    assert w * z == w * (2 * x) + w * c - w * (BASE * c');
    assert w * (BASE * c') == c' * (BASE * w);
    assert w * (2 * x) == 2 * (w * x);
  }

  /** Rotate right by one bit. */
  method RotateRight(value: array<uint32>)
    modifies value
    ensures Value(value[..]) == old(Value(value[..])) / 2
  {
    hide Value, Weight;
    var c := 0;
    ghost var old_ := value[..];
    assert Value([]) == 0 by { Nothing(); }
    var i := value.Length;
    assert value[i..] == [] && old_[i..] == [];
    while i > 0
      invariant 0 <= i <= value.Length && 0 <= c <= 1 && value[..i] == old_[..i]
      invariant 2 * Value(value[i..]) + c == Value(old_[i..])
    {
      i := i - 1;
      var x := value[i];
      assert old_[..i + 1][i] == x;
      ghost var after := value[i + 1..];
      value[i] := x / 2 + c * 0x8000_0000;
      assert value[i..] == [value[i]] + after && old_[i..] == [x] + old_[i + 1..];
      ValueCons(value[i], after);
      ValueCons(x, old_[i + 1..]);
      c := x % 2;
    }
    assert value[0..] == value[..] && old_[0..] == old_;
  }

  lemma {:induction false} ValueCons(x: uint32, s: seq<uint32>)
    ensures Value([x] + s) == x + BASE * Value(s)
  {
    assert ([x] + s)[1..] == s;
  }

  // ----- Comparing

  method IsZero(value: array<uint32>) returns (r: bool)
    ensures r <==> Value(value[..]) == 0
  {
    hide Value;
    assert Value([]) == 0 by { Nothing(); }
    var i := value.Length;
    assert value[i..] == [];
    while i > 0
      invariant 0 <= i <= value.Length && Value(value[i..]) == 0
    {
      i := i - 1;
      assert value[i..] == [value[i]] + value[i + 1..];
      ValueCons(value[i], value[i + 1..]);
      if value[i] != 0 {
        ValueSplit(value[..], i);
        assert value[..][i..] == value[i..];
        Positive(Weight(i), Value(value[i..]));
        return false;
      }
    }
    assert value[0..] == value[..];
    return true;
  }

  /** Compare from the most significant element down. */
  method IsGeq(value: array<uint32>, reference: array<uint32>) returns (r: bool)
    requires value.Length == reference.Length
    ensures r <==> Value(value[..]) >= Value(reference[..])
  {
    hide Value;
    var i := value.Length;
    while i > 0
      invariant 0 <= i <= value.Length && value[i..] == reference[i..]
    {
      i := i - 1;
      if value[i] != reference[i] {
        FirstDifference(value[..], reference[..], i);
        return value[i] > reference[i];
      }
      assert value[i..] == [value[i]] + value[i + 1..] && reference[i..] == [reference[i]] + reference[i + 1..];
    }
    assert value[0..] == value[..] && reference[0..] == reference[..];
    return true;
  }

  lemma {:induction false} FirstDifference(a: seq<uint32>, b: seq<uint32>, i: nat)
    requires i < |a| == |b| && a[i + 1..] == b[i + 1..] && a[i] != b[i]
    ensures Value(a) >= Value(b) <==> a[i] > b[i]
  {
    hide Value, Weight;
    ValueSplit(a, i + 1);
    ValueSplit(b, i + 1);
    ValueSnoc(a, i);
    ValueSnoc(b, i);
    ValueBound(a[..i]);
    ValueBound(b[..i]);
    if a[i] > b[i] {
      Above(Weight(i), a[i], b[i]);
    } else {
      Above(Weight(i), b[i], a[i]);
    }
  }

  lemma {:induction false} Above(w: nat, x: nat, y: nat)
    requires x > y
    ensures w * x >= w * y + w
  {
    var d := x - y - 1;
    assert w * x == w * y + w + w * d;
    assert w * d >= 0;
  }

  /** The highest bit set of a number, plus one. */
  ghost predicate IsTop(v: nat, k: nat) {
    if k == 0 then v == 0 else Pow2(k - 1) <= v < Pow2(k)
  }

  /** The highest bit set of an element, plus one. */
  method TopOfElement(x: uint32) returns (k: nat)
    requires x > 0
    ensures 1 <= k <= 32 && IsTop(x, k)
  {
    k := 0;
    var p := 1;
    assert Pow2(32) == BASE by { Pow2Values(); }
    while p <= x
      invariant 0 <= k <= 32 && p == Pow2(k) && (k > 0 ==> Pow2(k - 1) <= x)
      decreases 32 - k
    {
      assert k < 32;
      k := k + 1;
      p := 2 * p;
    }
  }

  method MaxSetBit(value: array<uint32>) returns (k: nat)
    ensures IsTop(Value(value[..]), k)
    ensures if k == 0 then Value(value[..]) == 0 else Pow2(k - 1) <= Value(value[..]) < Pow2(k)
  {
    hide Value, Pow2;
    var i := value.Length;
    assert Value([]) == 0 by { Nothing(); }
    assert value[i..] == [];
    while i > 0
      invariant 0 <= i <= value.Length && Value(value[i..]) == 0
    {
      i := i - 1;
      assert value[i..] == [value[i]] + value[i + 1..];
      ValueCons(value[i], value[i + 1..]);
      if value[i] != 0 {
        var t := TopOfElement(value[i]);
        TopShifted(value[..], i, t);
        return 32 * i + t;
      }
    }
    assert value[0..] == value[..];
    TopOfZero();
    return 0;
  }

  lemma {:induction false} TopOfZero()
    ensures IsTop(0, 0)
  {
  }

  lemma {:induction false} TopShifted(s: seq<uint32>, i: nat, t: nat)
    requires i < |s| && Value(s[i + 1..]) == 0 && t > 0 && IsTop(s[i], t)
    ensures IsTop(Value(s), 32 * i + t)
  {
    hide Value, Weight, Pow2;
    ValueSplit(s, i + 1);
    ValueSnoc(s, i);
    ValueBound(s[..i]);
    WeightIsPow2(i);
    Pow2Add(32 * i, t - 1);
    Pow2Add(32 * i, t);
    var w := Weight(i);
    Between(w, Pow2(t - 1), s[i], Pow2(t));
  }

  lemma {:induction false} Between(w: nat, a: nat, x: nat, b: nat)
    requires a <= x < b
    ensures w * a <= w * x && w * x + w <= w * b
  {
    Above(w, b, x);
    if a < x {
      Above(w, x, a);
    }
  }

  // ----- Copying

  method Grow(source: array<uint32>, size: nat) returns (dest: array<uint32>)
    requires source.Length <= size
    ensures fresh(dest) && dest.Length == size && Value(dest[..]) == Value(source[..])
  {
    hide Value;
    dest := new uint32[size](i => 0);
    for i := 0 to source.Length
      invariant fresh(dest) && dest[..i] == source[..i] && forall k :: i <= k < size ==> dest[k] == 0
    {
      dest[i] := source[i];
    }
    ghost var zeros := seq(size - source.Length, i => 0);
    assert dest[..] == source[..] + zeros;
    ValueAppend(source[..], zeros);
    ValueZeros(size - source.Length);
  }

  /** Keep the low elements. */
  method Shrink(source: array<uint32>, dest: array<uint32>)
    requires dest.Length <= source.Length && source != dest
    modifies dest
    ensures Value(source[..]) < Weight(dest.Length) ==> Value(dest[..]) == Value(source[..])
  {
    hide Value;
    for i := 0 to dest.Length
      invariant dest[..i] == source[..i]
    {
      dest[i] := source[i];
    }
    assert dest[..] == source[..][..dest.Length];
    ShrinkValue(source[..], dest.Length);
  }

  lemma {:induction false} ShrinkValue(s: seq<uint32>, n: nat)
    requires n <= |s|
    ensures Value(s) < Weight(n) ==> Value(s[..n]) == Value(s)
  {
    hide Value;
    ValueSplit(s, n);
    var v := Value(s[n..]);
    if v > 0 {
      Above(Weight(n), v, 0);
    }
  }

  // ----- Multiplying

  /** Add an element at a place, and the carry to the places above. */
  lemma {:induction false} AddStep(s: seq<uint32>, k: nat, add: nat, y: uint32, c: nat)
    requires k < |s| && s[k] + add == y + BASE * c
    ensures Value(s[k := y]) + c * Weight(k + 1) == Value(s) + add * Weight(k)
  {
    hide Value;
    ValueUpdate(s, k, y);
    var w, d := Weight(k), y - s[k];
    assert d == add - BASE * c;
    assert w * d == w * add - w * (BASE * c);
    assert w * (BASE * c) == c * (BASE * w);
    assert w * add == add * w;
  }

  /** Add to one element of the number that the first `m` elements hold and return the carry.  Adding
      nothing to the element after the last changes nothing. */
  method AddElement(result: array<uint32>, m: nat, k: nat, add: nat) returns (carry: nat)
    requires k <= m < result.Length && add <= BASE && (k == m ==> add == 0)
    modifies result
    ensures carry <= 1 && result[m] == old(result[m])
    ensures k < m ==> Value(result[..m]) + carry * Weight(k + 1) == old(Value(result[..m])) + add * Weight(k)
    ensures k == m ==> carry == 0 && result[..] == old(result[..])
  {
    hide Value, Weight;
    var d := result[k] + add;
    carry := if d >= BASE then 1 else 0;
    if k < m {
      AddStep(result[..m], k, add, d - BASE * carry, carry);
    }
    result[k] := d - BASE * carry;
    assert k < m ==> result[..m] == old(result[..m])[k := d - BASE * carry];
  }

  /** Add the product of two elements at a place.  The carry is added to the element two places up
      before it is looked at, which is the element after the last exactly if the place is the last
      but one; that element keeps its value. */
  method AddProduct(result: array<uint32>, m: nat, k: nat, x: uint32, y: uint32) returns (ghost beyond: bool)
    requires k + 1 < m < result.Length && Value(result[..m]) + x * y * Weight(k) < Weight(m)
    modifies result
    ensures Value(result[..m]) == old(Value(result[..m])) + x * y * Weight(k)
    ensures result[m] == old(result[m]) && (beyond <==> k + 2 == m)
  {
    hide Value, Weight;
    ghost var target := Value(result[..m]) + x * y * Weight(k);
    var lo, hi := DoubleElement(x, y);
    WeightNext(k);
    HalvesAt(x * y, lo, hi, Weight(k));
    var c := AddElement(result, m, k, lo);
    AddHigh(hi, c, Weight(k + 1));
    c := AddElement(result, m, k + 1, hi + c);
    beyond := Propagate(result, m, k + 2, c, target);
  }

  /** The product of two elements as two elements. */
  method DoubleElement(x: uint32, y: uint32) returns (lo: nat, hi: nat)
    ensures x * y == hi * BASE + lo && lo < BASE && hi < BASE - 1
  {
    Halves(x, y);
    var p := x * y;
    lo, hi := p % BASE, p / BASE;
  }

  lemma {:induction false} AddHigh(hi: nat, c: nat, w: nat)
    ensures (hi + c) * w == hi * w + c * w
  {
  }

  /** Carry as far as necessary, but add at least once.  Tells whether the element after the last was
      touched. */
  method Propagate(result: array<uint32>, m: nat, start: nat, carry: nat, ghost target: nat)
    returns (ghost beyond: bool)
    requires carry <= 1 && start <= m < result.Length
    requires Value(result[..m]) + carry * Weight(start) == target < Weight(m)
    modifies result
    ensures Value(result[..m]) == target && result[m] == old(result[m]) && (beyond <==> start == m)
  {
    hide Value, Weight;
    var i, c, more := start, carry, true;
    beyond := false;
    InPlace(result[..m], c, i, target);
    while more
      invariant 0 <= c <= 1 && start <= i && (more ==> i <= m) && (c != 0 ==> i < m)
      invariant more && i > start ==> c != 0
      invariant more || c == 0
      invariant Value(result[..m]) + c * Weight(i) == target && result[m] == old(result[m])
      invariant beyond <==> start == m && i > m
      invariant !more ==> i > start
      decreases more, m - i
    {
      beyond := beyond || i == m;
      c := AddElement(result, m, i, c);
      i := i + 1;
      more := c != 0;
      assert Value(result[..m]) + c * Weight(i) == target;
      InPlace(result[..m], c, i, target);
    }
  }

  lemma {:induction false} Halves(x: uint32, y: uint32)
    ensures 0 <= x * y && x * y / BASE < BASE - 1
  {
    var m := BASE - 1;
    assert x * y <= x * m by { if y < m { Above(x, m, y); } }
    assert x * m <= m * m by { if x < m { Above(m, m, x); } }
    assert m * m < BASE * (BASE - 1);
  }

  lemma {:induction false} HalvesAt(p: nat, lo: nat, hi: nat, w: nat)
    requires p == hi * BASE + lo
    ensures p * w == lo * w + hi * (BASE * w)
  {
    var z := hi * BASE + lo;
    assert z * w == hi * BASE * w + lo * w;
    MulAssoc(hi, BASE, w);
  }

  /** A carry that is left does not leave the number, since the sum fits. */
  lemma {:induction false} InPlace(s: seq<uint32>, c: nat, i: nat, target: nat)
    requires c <= 1 && Value(s) + c * Weight(i) == target < Weight(|s|)
    ensures c != 0 ==> i < |s|
  {
    hide Value;
    if c == 1 && i >= |s| {
      WeightAdd(|s|, i - |s|);
      MulGeq(Weight(|s|), Weight(i - |s|));
    }
  }

  /** Multiply, one element by one element, into the first elements of some memory.  The element after
      the product is touched exactly once, if there is anything to multiply, and keeps its value. */
  method MultiplyRaw(multiplicand: array<uint32>, multiplier: array<uint32>, result: array<uint32>)
    returns (ghost beyond: nat)
    requires multiplicand.Length == multiplier.Length && result.Length > 2 * multiplicand.Length
    requires result != multiplicand && result != multiplier
    modifies result
    ensures Value(result[..2 * multiplicand.Length]) == Value(multiplicand[..]) * Value(multiplier[..])
    ensures result[2 * multiplicand.Length] == old(result[2 * multiplicand.Length])
    ensures beyond == if multiplicand.Length > 0 then 1 else 0
  {
    hide Value, Weight;
    var n := multiplicand.Length;
    for i := 0 to 2 * n
      invariant forall k :: 0 <= k < i ==> result[k] == 0
      invariant result[2 * n] == old(result[2 * n])
    {
      result[i] := 0;
    }
    assert result[..2 * n] == seq(2 * n, i => 0);
    ValueZeros(2 * n);
    ghost var a, b := multiplicand[..], multiplier[..];
    assert a[..0] == [] && Value([]) == 0 by { Nothing(); }
    beyond := 0;
    for i := 0 to n
      invariant Value(result[..2 * n]) == Value(a[..i]) * Value(b) && result[2 * n] == old(result[2 * n])
      invariant beyond == if i == n && n > 0 then 1 else 0
    {
      ghost var row := MultiplyRow(result, multiplicand, multiplier, i);
      beyond := beyond + row;
    }
    assert a[..n] == a;
  }

  /** Multiply; what follows the result in memory is one more element here. */
  method Multiply(multiplicand: array<uint32>, multiplier: array<uint32>) returns (result: array<uint32>)
    requires multiplicand.Length == multiplier.Length
    ensures fresh(result) && result.Length == 2 * multiplicand.Length
    ensures Value(result[..]) == Value(multiplicand[..]) * Value(multiplier[..])
  {
    hide Value, Weight;
    var memory := new uint32[2 * multiplicand.Length + 1];
    ghost var beyond := MultiplyRaw(multiplicand, multiplier, memory);
    result := new uint32[2 * multiplicand.Length];
    ghost var product := memory[..result.Length];
    for i := 0 to result.Length
      invariant fresh(result) && result[..i] == memory[..i] && memory[..result.Length] == product
      modifies result
    {
      result[i] := memory[i];
    }
    assert result[..] == memory[..result.Length];
  }

  /** Add one row of the product. */
  method MultiplyRow(result: array<uint32>, multiplicand: array<uint32>, multiplier: array<uint32>, i: nat)
    returns (ghost beyond: nat)
    requires multiplicand.Length == multiplier.Length && i < multiplicand.Length
             && result.Length > 2 * multiplicand.Length
    requires result != multiplicand && result != multiplier
    requires Value(result[..2 * multiplicand.Length]) == Value(multiplicand[..][..i]) * Value(multiplier[..])
    modifies result
    ensures Value(result[..2 * multiplicand.Length]) == Value(multiplicand[..][..i + 1]) * Value(multiplier[..])
    ensures result[2 * multiplicand.Length] == old(result[2 * multiplicand.Length])
    ensures beyond == if i == multiplicand.Length - 1 then 1 else 0
  {
    hide Value, Weight;
    var n := multiplicand.Length;
    var x := multiplicand[i];
    ghost var a, b, start := multiplicand[..], multiplier[..], Value(result[..2 * n]);
    assert b[..0] == [] && Value([]) == 0 by { Nothing(); }
    beyond := 0;
    for j := 0 to n
      invariant Value(result[..2 * n]) == start + Weight(i) * x * Value(b[..j]) && result[2 * n] == old(result[2 * n])
      invariant beyond == if i == n - 1 && j == n then 1 else 0
    {
      var y := multiplier[j];
      ValueSnoc(b, j);
      RowStep(Weight(i), x, Value(b[..j]), Weight(j), y);
      WeightAdd(i, j);
      RowFits(a, b, i, j);
      ghost var last := AddProduct(result, 2 * n, i + j, x, y);
      beyond := beyond + if last then 1 else 0;
    }
    assert b[..n] == b;
    ValueSnoc(a, i);
    RowDone(Value(a[..i]), Weight(i), x, Value(b));
  }

  lemma {:induction false} RowStep(wi: nat, x: nat, v: nat, wj: nat, y: nat)
    ensures wi * x * (v + wj * y) == wi * x * v + x * y * (wi * wj)
  {
    assert wi * x * (v + wj * y) == wi * x * v + wi * x * (wj * y);
    Shuffle(wi, x, wj, y);
  }

  lemma {:induction false} Shuffle(a: nat, b: nat, c: nat, d: nat)
    ensures a * b * (c * d) == b * d * (a * c)
  {
    MulAssoc(a * b, c, d);
    MulAssoc(a, b, c);
    MulCommutes(b, c);
    MulAssoc(a, c, b);
    MulAssoc(a * c, b, d);
  }

  lemma {:induction false} RowDone(v: nat, w: nat, x: nat, b: nat)
    ensures v * b + w * x * b == (v + w * x) * b
  {
  }

  /** The product so far fits, since the whole product does. */
  lemma {:induction false} RowFits(a: seq<uint32>, b: seq<uint32>, i: nat, j: nat)
    requires i < |a| == |b| && j < |b|
    ensures Value(a[..i]) * Value(b) + Weight(i) * a[i] * Value(b[..j + 1]) < Weight(2 * |a|)
  {
    hide Value, Weight;
    ValueSnoc(a, i);
    PrefixSmaller(a, i + 1);
    PrefixSmaller(b, j + 1);
    ValueBound(a);
    ValueBound(b);
    RowBound(Value(a[..i]), Weight(i) * a[i], Value(b[..j + 1]), Value(a), Value(b), Weight(|a|));
    WeightAdd(|a|, |a|);
  }

  lemma {:induction false} RowBound(v: nat, w: nat, part: nat, x: nat, y: nat, weight: nat)
    requires v + w <= x < weight && part <= y < weight
    ensures v * y + w * part < weight * weight
  {
    var m := weight - 1;
    MulMono(w, part, y);
    assert (v + w) * y == v * y + w * y;
    MulCommutes(v + w, y);
    MulMono(y, v + w, m);
    MulCommutes(y, m);
    MulMono(m, y, m);
    SquareBelow(weight);
  }

  lemma {:induction false} PrefixSmaller(s: seq<uint32>, i: nat)
    requires i <= |s|
    ensures Value(s[..i]) <= Value(s)
  {
    hide Value, Weight;
    ValueSplit(s, i);
    assert Weight(i) * Value(s[i..]) >= 0;
  }

  lemma {:induction false} SquareBelow(w: nat)
    requires w > 0
    ensures (w - 1) * (w - 1) < w * w
  {
    var x := w - 1;
    assert w * w == x * x + 2 * x + 1;
  }

  // ----- Modular arithmetic

  /** Multiply modulo a number by shifting the modulus up to the size of the product and subtracting
      it on the way down.  The result may be stored over any operand. */
  method ModMultiply(multiplicand: array<uint32>, multiplier: array<uint32>, modulus: array<uint32>,
                     result: array<uint32>)
    requires multiplicand.Length == multiplier.Length == modulus.Length == result.Length
    requires Value(modulus[..]) > 0
    modifies result
    ensures Value(result[..]) == old(Value(multiplicand[..]) * Value(multiplier[..]) % Value(modulus[..]))
  {
    hide Value, Weight, IsTop;
    ghost var m, product := Value(modulus[..]), Value(multiplicand[..]) * Value(multiplier[..]);
    ValueBound(modulus[..]);
    var n := modulus.Length;
    var r := Multiply(multiplicand, multiplier);
    var q := Grow(modulus, 2 * n);
    var top := MaxSetBit(r);
    var bottom := MaxSetBit(q);
    var rotation := top as int - bottom as int;
    ValueBound(r[..]);
    Scale(q, rotation, m, product, top, bottom);
    Reduce(r, q, rotation, m, product);
    ModIs(product, m);
    Shrink(r, result);
  }

  lemma {:induction false} ModIs(x: nat, m: nat)
    requires m > 0
    ensures 0 <= x % m < m
  {
  }

  /** Rotate the modulus left until its highest bit is that of the product. */
  method Scale(q: array<uint32>, rotation: int, ghost m: nat, ghost product: nat, ghost top: nat, ghost bottom: nat)
    requires Value(q[..]) == m > 0 && IsTop(product, top) && IsTop(m, bottom) && rotation == top - bottom
    requires product < Weight(q.Length)
    modifies q
    ensures rotation >= 0 ==> Value(q[..]) == m * Pow2(rotation) && product < 2 * (m * Pow2(rotation))
    ensures rotation < 0 ==> product < m
  {
    hide Value, Weight, IsTop, Pow2;
    assert Pow2(0) == 1 by { PowZero(); }
    var i := 0;
    while i < rotation
      invariant 0 <= i && (rotation >= 0 ==> i <= rotation) && Value(q[..]) == m * Pow2(i)
    {
      ghost var carry := RotateLeft(q);
      ValueBound(q[..]);
      Doubled(m, i);
      WeightIsPow2(q.Length);
      Room(m, i + 1, product, top, bottom, 32 * q.Length);
      i := i + 1;
    }
    Scaled(m, rotation, product, top, bottom);
  }

  lemma {:induction false} Doubled(m: nat, i: nat)
    ensures 2 * (m * Pow2(i)) == m * Pow2(i + 1)
  {
    var p := Pow2(i);
    assert Pow2(i + 1) == 2 * p;
    assert m * (2 * p) == 2 * (m * p);
  }

  lemma {:induction false} TopBound(v: nat, k: nat, bits: nat)
    requires IsTop(v, k) && v < Pow2(bits)
    ensures Pow2(k) <= Pow2(bits)
  {
    hide Pow2;
    if k > bits {
      Pow2Monotone(bits, k - 1);
    } else {
      Pow2Monotone(k, bits);
    }
  }

  lemma {:induction false} TopPositive(v: nat, k: nat)
    requires IsTop(v, k) && v > 0
    ensures k > 0 && Pow2(k - 1) <= v < Pow2(k)
  {
  }

  /** A modulus shifted no further than the product has room. */
  lemma {:induction false} Room(m: nat, i: nat, product: nat, top: nat, bottom: nat, bits: nat)
    requires bottom + i <= top && IsTop(product, top) && IsTop(m, bottom) && m > 0 && product < Pow2(bits)
    ensures m * Pow2(i) < Pow2(bits)
  {
    hide Pow2, IsTop;
    TopPositive(m, bottom);
    TopBound(product, top, bits);
    Pow2Add(bottom, i);
    Pow2Monotone(bottom + i, top);
    var p := Pow2(i);
    Above(p, Pow2(bottom), m);
    MulCommutes(p, m);
    MulCommutes(p, Pow2(bottom));
  }

  lemma {:induction false} Scaled(m: nat, rotation: int, product: nat, top: nat, bottom: nat)
    requires rotation == top - bottom && IsTop(product, top) && IsTop(m, bottom) && m > 0
    ensures rotation >= 0 ==> product < 2 * (m * Pow2(rotation))
    ensures rotation < 0 ==> product < m
  {
    hide Pow2;
    TopPositive(m, bottom);
    if rotation >= 0 {
      Pow2Add(bottom - 1, rotation);
      var p := Pow2(rotation);
      MulMono(p, Pow2(bottom - 1), m);
      MulCommutes(p, m);
      MulCommutes(p, Pow2(bottom - 1));
      assert Pow2(top) == 2 * Pow2(top - 1) by { PowNext(top - 1); }
    } else {
      Pow2Monotone(top, bottom - 1);
    }
  }

  lemma {:induction false} PowNext(k: nat)
    ensures Pow2(k + 1) == 2 * Pow2(k)
  {
  }

  /** Subtract the modulus where it fits and halve it, until it is back at its own size. */
  method Reduce(r: array<uint32>, q: array<uint32>, rotation: int, ghost m: nat, ghost product: nat)
    requires r.Length == q.Length && r != q && Value(r[..]) == product && m > 0
    requires rotation >= 0 ==> Value(q[..]) == m * Pow2(rotation) && product < 2 * (m * Pow2(rotation))
    requires rotation < 0 ==> product < m
    modifies r, q
    ensures Value(r[..]) == product % m
  {
    hide Value, Weight, Pow2;
    ghost var k: nat := 0;
    var i := 0;
    while i <= rotation
      invariant 0 <= i && (rotation >= 0 ==> i <= rotation + 1)
      invariant Value(r[..]) == product - k * m
      invariant i <= rotation ==> Value(q[..]) == m * Pow2(rotation - i) && Value(r[..]) < 2 * (m * Pow2(rotation - i))
      invariant i > rotation ==> Value(r[..]) < m
    {
      ghost var p := Pow2(rotation - i);
      k := ReduceOnce(r, q, m, p, k, product);
      if i < rotation {
        PowNext(rotation - i - 1);
        Halved(m, Pow2(rotation - i - 1));
      } else {
        assert p == 1 by { PowZero(); }
      }
      i := i + 1;
    }
    DivModUnique(product, k, m, Value(r[..]));
  }

  method ReduceOnce(r: array<uint32>, q: array<uint32>, ghost m: nat, ghost p: nat, ghost k: nat, ghost product: nat)
    returns (ghost k': nat)
    requires r.Length == q.Length && r != q && Value(q[..]) == m * p
    requires Value(r[..]) == product - k * m && Value(r[..]) < 2 * (m * p)
    modifies r, q
    ensures Value(r[..]) == product - k' * m && Value(r[..]) < m * p
    ensures Value(q[..]) == m * p / 2
  {
    hide Value, Weight;
    k' := k;
    var geq := IsGeq(r, q);
    if geq {
      ghost var a := Value(r[..]);
      ghost var borrow := Subtract(q, r);
      ValueBound(r[..]);
      NoBorrow(Value(r[..]), a, Value(q[..]), borrow, Weight(r.Length));
      MulCommutes(m, p);
      AddHigh(k, p, m);
      k' := k + p;
    }
    RotateRight(q);
  }

  lemma {:induction false} Halved(m: nat, p: nat)
    ensures m * (2 * p) / 2 == m * p && m * (2 * p) == 2 * (m * p)
  {
    assert m * (2 * p) == 2 * (m * p);
  }

  // ----- Exponentiation

  function Power(b: nat, e: nat): nat {
    if e == 0 then 1 else b * Power(b, e - 1)
  }

  lemma {:induction false} PowerAdd(b: nat, d: nat, e: nat)
    ensures Power(b, d + e) == Power(b, d) * Power(b, e)
  {
    if d > 0 {
      PowerAdd(b, d - 1, e);
      MulAssoc(b, Power(b, d - 1), Power(b, e));
    }
  }

  lemma {:induction false} PowerSquare(b: nat, e: nat)
    ensures Power(b * b, e) == Power(b, 2 * e)
  {
    if e > 0 {
      PowerSquare(b, e - 1);
      PowerAdd(b, 2, 2 * (e - 1));
      assert Power(b, 2) == b * b by { assert Power(b, 1) == b; }
    }
  }

  lemma {:induction false} ModDrop(k: nat, m: nat, z: nat)
    requires m > 0
    ensures (k * m + z) % m == z % m
  {
    var q := z / m;
    assert z == q * m + z % m;
    AddHigh(k, q, m);
    DivModUnique(k * m + z, k + q, m, z % m);
  }

  /** Reducing a factor does not change a product modulo `m`. */
  lemma {:induction false} ModFactor(x: nat, y: nat, m: nat)
    requires m > 0
    ensures (x % m) * y % m == x * y % m
  {
    var q, r := x / m, x % m;
    DivNonnegative(x, m);
    assert x == q * m + r;
    AddHigh(q * m, r, y);
    MulAssoc(q, m, y);
    MulCommutes(m, y);
    MulAssoc(q, y, m);
    Positive0(q, y);
    Positive0(r, y);
    ModDrop(q * y, m, r * y);
  }

  lemma {:induction false} Positive0(a: nat, b: nat)
    ensures a * b >= 0
  {
  }

  lemma {:induction false} ModPower(b: nat, e: nat, m: nat, c: nat)
    requires m > 0
    ensures c * Power(b % m, e) % m == c * Power(b, e) % m
  {
    if e > 0 {
      var r, p := b % m, Power(b % m, e - 1);
      ModIs(b, m);
      Positive0(c, p);
      Positive0(c, b);
      // move the first factor out, reduce it, and put it back
      Rotate3(c, r, p);
      ModFactor(b, c * p, m);
      Rotate3(c, b, p);
      MulAssoc(c, b, p);
      ModPower(b, e - 1, m, c * b);
      MulAssoc(c, b, Power(b, e - 1));
    }
  }

  lemma {:induction false} Rotate3(c: nat, r: nat, p: nat)
    ensures c * (r * p) == r * (c * p)
  {
    MulAssoc(c, r, p);
    MulCommutes(c, r);
    MulAssoc(r, c, p);
  }

  /** Raise to a power modulo a number, from the low bit of the exponent up.  The result may be
      stored over the base or the exponent.  It is right except for the power of zero modulo one. */
  method ModExp(base: array<uint32>, modulus: array<uint32>, exponent: array<uint32>, result: array<uint32>)
    requires base.Length == modulus.Length == result.Length > 0 && result != modulus
    requires Value(modulus[..]) > 0
    modifies result
    ensures old(Value(exponent[..])) == 0 ==> Value(result[..]) == 1
    ensures Value(result[..]) == old(Power(Value(base[..]), Value(exponent[..])) % Value(modulus[..]))
            <==> !(Value(modulus[..]) == 1 && old(Value(exponent[..])) == 0)
  {
    hide Value, Power;
    ghost var b0, e0, m := Value(base[..]), Value(exponent[..]), Value(modulus[..]);
    var b := Grow(base, base.Length);
    var e := Grow(exponent, exponent.Length);
    SetOne(result);
    PowerOne(b0, e0);
    var done := IsZero(e);
    while !done
      invariant fresh(b) && fresh(e) && b != e && b.Length == result.Length && e.Length == exponent.Length
      invariant done <==> Value(e[..]) == 0
      invariant Value(modulus[..]) == m
      invariant Value(result[..]) * Power(Value(b[..]), Value(e[..])) % m == Power(b0, e0) % m
      invariant Value(result[..]) < m || Value(e[..]) > 0 || e0 == 0
      invariant e0 == 0 ==> Value(e[..]) == 0 && Value(result[..]) == 1
      decreases Value(e[..])
    {
      ghost var x, y, k := Value(result[..]), Value(b[..]), Value(e[..]);
      LowBit(e[..]);
      if e[0] % 2 == 1 {
        ModMultiply(result, b, modulus, result);
      }
      ExpStep(x, y, k, m);
      RotateRight(e);
      ModMultiply(b, b, modulus, b);
      done := IsZero(e);
    }
    ExpDone(Value(result[..]), b0, e0, m, Value(b[..]));
  }

  method SetOne(result: array<uint32>)
    requires result.Length > 0
    modifies result
    ensures Value(result[..]) == 1
  {
    hide Value;
    result[0] := 1;
    for i := 1 to result.Length
      invariant result[0] == 1 && forall k :: 1 <= k < i ==> result[k] == 0
    {
      result[i] := 0;
    }
    assert result[..] == [1] + seq(result.Length - 1, i => 0);
    ValueCons(1, seq(result.Length - 1, i => 0));
    ValueZeros(result.Length - 1);
  }

  lemma {:induction false} PowerOne(b: nat, e: nat)
    ensures 1 * Power(b, e) == Power(b, e)
  {
  }

  lemma {:induction false} LowBit(s: seq<uint32>)
    requires Value(s) > 0
    ensures s != [] && s[0] % 2 == Value(s) % 2
  {
    SameParity(s[0], Value(s[1..]));
  }

  lemma {:induction false} SameParity(x: nat, v: nat)
    ensures (x + BASE * v) % 2 == x % 2
  {
    var h := 0x8000_0000 * v;
    assert x + BASE * v == x + 2 * h;
  }

  /** One bit of the exponent. */
  lemma {:induction false} ExpStep(x: nat, y: nat, k: nat, m: nat)
    requires m > 0 && k > 0
    ensures y * y % m >= 0
    ensures var x' := if k % 2 == 1 then x * y % m else x;
            x' >= 0 && x' * Power(y * y % m, k / 2) % m == x * Power(y, k) % m
  {
    hide Power;
    var h := k / 2;
    Positive0(y, y);
    Positive0(x, y);
    ModIs(y * y, m);
    ModIs(x * y, m);
    var x' := if k % 2 == 1 then x * y % m else x;
    ModPower(y * y, h, m, x');
    PowerSquare(y, h);
    if k % 2 == 1 {
      ModFactor(x * y, Power(y, 2 * h), m);
      MulAssoc(x, y, Power(y, 2 * h));
      assert Power(y, k) == y * Power(y, 2 * h) by { PowerNext(y, 2 * h); }
    }
  }

  lemma {:induction false} PowerNext(b: nat, e: nat)
    ensures Power(b, 0) == 1 && Power(b, e + 1) == b * Power(b, e)
  {
  }

  lemma {:induction false} ExpDone(x: nat, b0: nat, e0: nat, m: nat, y: nat)
    requires m > 0 && x * Power(y, 0) % m == Power(b0, e0) % m && (x < m || e0 == 0) && (e0 == 0 ==> x == 1)
    ensures x == Power(b0, e0) % m <==> !(m == 1 && e0 == 0)
  {
    assert x * Power(y, 0) == x;
    if x < m {
      DivModUnique(x, 0, m, x);
    } else {
      assert m == 1 && e0 == 0;
    }
  }
}
