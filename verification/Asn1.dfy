/** Headers of ASN.1 objects in the encoding of ITU-T X.690, section 8.1.3: what the builder writes
    and what the cursor reads.

    A length is read into 32 bits and returned as a signed number, so that lengths from 2^31 on are
    not read back; sizes have 64 bits.
  */
module Asn1 {
  import opened Bits
  import opened ByteStrings

  /** Stands for any type where a type is expected. */
  const ANY: int := -1

  const WORD: nat := 0x1_0000_0000
  const SIGN: nat := 0x8000_0000

  datatype Reason = Empty | Mismatch | BadLengthLength | BadLength | Negative | End

  /** The length of an object's body, or why there is none. */
  datatype Outcome = Length(len: nat) | Failed(reason: Reason)

  // ----- Writing

  /** The bytes of a number, most significant first, without leading zeros. */
  function Digits(x: nat): (d: Bytes)
    ensures x > 0 ==> d != []
  {
    if x == 0 then [] else Digits(x / 256) + [x % 256]
  }

  /** The header of an object. */
  function Header(tag: byte, len: nat): (h: Bytes)
    requires len < WORD * WORD
    ensures |h| >= 2
  {
    DigitsShort(len, 8);
    if len < 128 then [tag, len] else [tag, 128 + |Digits(len)|] + Digits(len)
  }

  lemma {:induction false} DigitsShort(x: nat, k: nat)
    requires x < Pow2(8 * k) || (k == 8 && x < WORD * WORD)
    ensures |Digits(x)| <= k
  {
    assert Pow2(64) == WORD * WORD by { Pow2Values(); Pow2Add(32, 32); }
    if x > 0 && k > 0 {
      Pow2Add(8, 8 * (k - 1));
      Pow2Values();
      DigitsShort(x / 256, k - 1);
    }
  }

  // ----- Reading

  /** Read bytes into a 32-bit number, most significant first. */
  function Number(d: Bytes): (x: nat)
    ensures x < WORD
  {
    if d == [] then 0 else (256 * Number(d[..|d| - 1]) + d[|d| - 1]) % WORD
  }

  /** Start reading an object: the length of its body, and how far the cursor has moved. */
  function Start(c: Bytes, tag: int): (r: (Outcome, nat))
    ensures r.1 <= |c|
    ensures r.0.Length? ==> 2 <= r.1 && r.1 + r.0.len <= |c| && r.0.len < SIGN
  {
    if |c| < 2 then (Failed(Empty), 0)
    else if tag != ANY && tag != c[0] then (Failed(Mismatch), 0)
    else
      var long := c[1] >= 128;
      var size := if long then c[1] - 128 else 1;
      var at := if long then 2 else 1;
      if |c| - at < size then (Failed(BadLengthLength), at)
      else
        var len := Number(c[at..at + size]);
        if |c| - at - size < len then (Failed(BadLength), at + size)
        else if len >= SIGN then (Failed(Negative), at + size)
        else (Length(len), at + size)
  }

  /** A failure has not moved exactly if there is no object, or one of another type. */
  lemma {:induction false} StartMoves(c: Bytes, tag: int)
    ensures var (r, at) := Start(c, tag);
            r.Failed? ==> r.reason != End && (at == 0 <==> r.reason == Empty || r.reason == Mismatch)
  {
    hide Number;
  }

  // ----- Reading what was written

  lemma {:induction false} NumberDigits(x: nat)
    ensures Number(Digits(x)) == x % WORD
  {
    hide Number;
    if x == 0 {
      NumberOf([], 0);
    } else {
      var q, r := x / 256, x % 256;
      NumberDigits(q);
      NumberOf(Digits(q), r);
      Shifted(q, r);
    }
  }

  lemma {:induction false} Shifted(q: nat, r: nat)
    ensures (256 * (q % WORD) + r) % WORD == (256 * q + r) % WORD
  {
    var k := q / WORD;
    assert q == WORD * k + q % WORD;
    var y := 256 * (q % WORD) + r;
    assert 256 * q + r == WORD * (256 * k) + y;
    Periodic(y, 256 * k);
  }

  lemma {:induction false} Periodic(y: nat, k: nat)
    ensures (WORD * k + y) % WORD == y % WORD
  {
    var q := y / WORD;
    assert WORD * k + y == (k + q) * WORD + y % WORD;
    DivModUnique(WORD * k + y, k + q, WORD, y % WORD);
  }

  /** Reading a header gives the length modulo 2^32, or fails if that has the sign bit set. */
  lemma {:induction false} StartHeader(tag: byte, x: Bytes, rest: Bytes, wanted: int)
    requires |x| < WORD * WORD && (wanted == ANY || wanted == tag)
    ensures var h := Header(tag, |x|);
            Start(h + x + rest, wanted) == (if |x| % WORD < SIGN then Length(|x| % WORD) else Failed(Negative), |h|)
  {
    hide Number, Digits;
    var n, h := |x|, Header(tag, |x|);
    var c := h + x + rest;
    DigitsShort(n, 8);
    assert c[0] == h[0] && c[1] == h[1];
    if n < 128 {
      assert c[1..2] == [n];
      NumberOne(n);
    } else {
      var d := Digits(n);
      NumberDigits(n);
      assert h == [tag, 128 + |d|] + d;
      assert c[2..2 + |d|] == d;
    }
    assert n % WORD <= n;
  }

  lemma {:induction false} NumberOne(n: byte)
    ensures Number([n]) == n
  {
    assert [n][..0] == [];
  }

  /** A length is read back exactly if it is below 2^31. */
  lemma {:induction false} LengthExactly(tag: byte, x: Bytes, rest: Bytes, wanted: int)
    requires |x| < WORD * WORD && (wanted == ANY || wanted == tag)
    ensures Start(Header(tag, |x|) + x + rest, wanted).0 == Length(|x|) <==> |x| < SIGN
  {
    hide Start, Header;
    StartHeader(tag, x, rest, wanted);
  }

  // ----- What headers are

  /** A length below 128 is written as it is, after the type. */
  lemma {:induction false} ShortForm(tag: byte, n: nat)
    requires n < 0x1_0000_0000_0000_0000
    ensures |Header(tag, n)| == 2 <==> n < 128
    ensures n < 128 ==> Header(tag, n) == [tag, n]
  {
    hide Digits;
    if n >= 128 {
      assert Digits(n) != [];
    }
  }

  /** Any other length is written as the number of its bytes, with the top bit set, and the bytes, most
      significant first and not starting with zero. */
  lemma {:induction false} LongForm(tag: byte, n: nat)
    requires 128 <= n < 0x1_0000_0000_0000_0000
    ensures var h := Header(tag, n);
            var k := |h| - 2;
            && 1 <= k <= 8 && h[0] == tag && h[1] == 128 + k && h[2] != 0
            && Pow2(8 * (k - 1)) <= n < Pow2(8 * k)
            && forall i :: 2 <= i < |h| ==> h[i] == (n / Pow2(8 * (|h| - 1 - i))) % 256
  {
    hide Digits, Pow2;
    var d := Digits(n);
    DigitsShort(n, 8);
    DigitsRange(n);
    var h := Header(tag, n);
    assert h == [tag, 128 + |d|] + d;
    forall i | 2 <= i < |h| ensures h[i] == (n / Pow2(8 * (|h| - 1 - i))) % 256 {
      DigitAt(n, i - 2);
    }
  }

  lemma {:induction false} DigitsRange(x: nat)
    requires x > 0
    ensures var d := Digits(x); d != [] && d[0] != 0 && Pow2(8 * (|d| - 1)) <= x < Pow2(8 * |d|)
  {
    hide Pow2;
    var d, q := Digits(x), x / 256;
    if q == 0 {
      assert Digits(q) == [] && d == [x];
      assert Pow2(0) == 1 && Pow2(8) == 256 by { PowZero(); Pow2Values(); }
    } else {
      DigitsRange(q);
      var k := |d| - 1;
      assert d[0] == Digits(q)[0] && |Digits(q)| == k;
      TimesByte(k - 1);
      TimesByte(k);
    }
  }

  lemma {:induction false} TimesByte(k: nat)
    ensures Pow2(8 * (k + 1)) == 256 * Pow2(8 * k)
  {
    hide Pow2;
    Pow2Add(8, 8 * k);
    Pow2Values();
  }

  lemma {:induction false} DigitAt(x: nat, i: nat)
    requires x > 0 && i < |Digits(x)|
    ensures Digits(x)[i] == (x / Pow2(8 * (|Digits(x)| - 1 - i))) % 256
  {
    var d, q := Digits(x), x / 256;
    var k := |d| - 1;
    assert d == Digits(q) + [x % 256];
    if i == k {
      assert Pow2(0) == 1 && x / 1 == x;
    } else {
      DigitAt(q, i);
      Pow2Add(8, 8 * (k - 1 - i));
      assert Pow2(8) == 256 by { Pow2Values(); }
      DivDiv(x, 256, Pow2(8 * (k - 1 - i)));
    }
  }

  /** No header that is read as announcing a body is shorter than the one that is written. */
  lemma {:induction false} ShortestHeader(tag: byte, h: Bytes, x: Bytes, rest: Bytes, wanted: int)
    requires |x| < WORD * WORD && Start(h + x + rest, wanted) == (Length(|x|), |h|)
    ensures |Header(tag, |x|)| <= |h|
  {
    hide Digits, Number;
    var c := h + x + rest;
    assert c[0] == h[0] && c[1] == h[1];
    if c[1] < 128 {
      NumberOne(c[1]);
      assert c[1..2] == [c[1]];
    } else {
      NumberBound(c[2..|h|]);
      DigitsShort(|x|, |h| - 2);
    }
  }

  lemma {:induction false} NumberBound(d: Bytes)
    ensures Number(d) < Pow2(8 * |d|)
  {
    if d != [] {
      var m := |d| - 1;
      NumberBound(d[..m]);
      Pow2Add(8, 8 * m);
      assert Pow2(8) == 256 by { Pow2Values(); }
      AtMost(256 * Number(d[..m]) + d[m]);
    }
  }

  lemma {:induction false} AtMost(y: nat)
    ensures y % WORD <= y
  {
  }

  /** Reading bytes as a number: 256 times what comes before, in 32 bits. */
  lemma {:induction false} NumberOf(d: Bytes, x: byte)
    ensures Number([]) == 0 && Number(d + [x]) == (256 * Number(d) + x) % 0x1_0000_0000
  {
    assert (d + [x])[..|d|] == d;
  }

  /** Reading a short header: a length and the bytes after it. */
  lemma {:induction false} ReadShort(t: byte, n: byte, rest: Bytes, wanted: int)
    requires n < 128 && (wanted == -1 || wanted == t)
    ensures Start([t, n] + rest, wanted) == if |rest| < n then (Failed(BadLength), 2) else (Length(n), 2)
  {
    hide Number;
    var c := [t, n] + rest;
    assert c[1..2] == [n];
    NumberOne(n);
  }

  /** Reading a long header: as many bytes of length as announced, of which leading zeros do no harm, and the
      bytes after them. */
  lemma {:induction false} ReadLong(t: byte, d: Bytes, rest: Bytes, wanted: int)
    requires |d| < 128 && (wanted == -1 || wanted == t)
    ensures Start([t, 128 + |d|] + d + rest, wanted)
            == (if |rest| < Number(d) then Failed(BadLength) else if Number(d) >= 0x8000_0000 then Failed(Negative)
                else Length(Number(d)), 2 + |d|)
  {
    hide Number;
    var c := [t, 128 + |d|] + d + rest;
    assert c[2..2 + |d|] == d;
  }

  /** What is not read at all: less than two bytes, another type, or a length that is cut off. */
  lemma {:induction false} ReadNothing(c: Bytes, wanted: int)
    ensures |c| < 2 ==> Start(c, wanted) == (Failed(Empty), 0)
    ensures |c| >= 2 && wanted != -1 && wanted != c[0] ==> Start(c, wanted) == (Failed(Mismatch), 0)
    ensures |c| >= 2 && (wanted == -1 || wanted == c[0]) && c[1] >= 128 && |c| - 2 < c[1] - 128 ==>
              Start(c, wanted) == (Failed(BadLengthLength), 2)
  {
    hide Number;
  }

  // ----- Objects

  function Encode(tag: byte, x: Bytes): Bytes
    requires |x| < WORD * WORD
  {
    Header(tag, |x|) + x
  }

  /** The body of the first object. */
  function Enter(c: Bytes, tag: int): Option<Bytes> {
    var (r, at) := Start(c, tag);
    if r.Length? then Some(c[at..at + r.len]) else None
  }

  /** What follows the first object. */
  function After(c: Bytes, tag: int): Option<Bytes> {
    var (r, at) := Start(c, tag);
    if r.Length? then Some(c[at + r.len..]) else None
  }

  /** The first object as a whole. */
  function First(c: Bytes, tag: int): Option<Bytes> {
    var (r, at) := Start(c, tag);
    if r.Length? then Some(c[..at + r.len]) else None
  }

  /** Entering an object gives its body exactly if the body is shorter than 2^31. */
  lemma {:induction false} EnterEncode(tag: byte, x: Bytes, rest: Bytes, wanted: int)
    requires |x| < WORD * WORD && (wanted == ANY || wanted == tag)
    ensures Enter(Encode(tag, x) + rest, wanted) == Some(x) <==> |x| < SIGN
    ensures |x| < SIGN ==>
              After(Encode(tag, x) + rest, wanted) == Some(rest)
              && First(Encode(tag, x) + rest, wanted) == Some(Encode(tag, x))
  {
    hide Start, Header;
    StartHeader(tag, x, rest, wanted);
    var h := Header(tag, |x|);
    var c := h + x + rest;
    assert |x| < SIGN ==> c[|h|..|h| + |x|] == x && c[|h| + |x|..] == rest && c[..|h| + |x|] == h + x;
  }

  // ----- Nesting

  /** Wrap some content in objects of the given types, the first outermost. */
  function Nest(tags: seq<byte>, x: Bytes): (c: Bytes)
    requires Fits(tags, x)
    decreases |tags|, 1
  {
    if tags == [] then x else Encode(tags[0], Nest(tags[1..], x))
  }

  /** All lengths fit the header. */
  predicate Fits(tags: seq<byte>, x: Bytes)
    decreases |tags|, 0
  {
    if tags == [] then true else Fits(tags[1..], x) && |Nest(tags[1..], x)| < WORD * WORD
  }

  /** Enter objects of the given types one after the other. */
  function Unnest(tags: seq<byte>, c: Bytes): Option<Bytes> {
    if tags == [] then Some(c) else
      var r := Enter(c, tags[0]);
      if r.None? then None else Unnest(tags[1..], r.value)
  }

  /** What is read from the beginning of an object is at most the beginning of its body. */
  lemma {:induction false} StartPrefix(tag: byte, x: Bytes, m: nat)
    requires |x| < WORD * WORD && m < |Encode(tag, x)|
    ensures var h, r := Header(tag, |x|), Start(Encode(tag, x)[..m], tag);
            r.0.Length? ==> r.1 == |h| && |h| + r.0.len <= m && r.0.len < |x|
  {
    hide Number, Digits;
    var n, h, c := |x|, Header(tag, |x|), Encode(tag, x)[..m];
    DigitsShort(n, 8);
    if m >= 2 {
      assert c[0] == h[0] && c[1] == h[1];
    }
  }

  lemma {:induction false} EnterPrefix(tag: byte, x: Bytes, m: nat)
    requires |x| < WORD * WORD && m < |Encode(tag, x)|
    ensures var r := Enter(Encode(tag, x)[..m], tag); r.Some? ==> exists l :: 0 <= l < |x| && r.value == x[..l]
  {
    hide Start, Header;
    StartPrefix(tag, x, m);
    var h, e := Header(tag, |x|), Encode(tag, x);
    var (r, at) := Start(e[..m], tag);
    if r.Length? {
      assert e[..m][at..at + r.len] == x[..r.len];
    }
  }

  /** Nothing less than all of the encoding gives the content. */
  lemma {:induction false} UnnestPrefix(tags: seq<byte>, x: Bytes, m: nat)
    requires Fits(tags, x) && m < |Nest(tags, x)|
    ensures Unnest(tags, Nest(tags, x)[..m]) != Some(x)
    decreases |tags|
  {
    hide Enter, Encode;
    if tags != [] {
      var c := Nest(tags[1..], x);
      EnterPrefix(tags[0], c, m);
      var r := Enter(Nest(tags, x)[..m], tags[0]);
      if r.Some? {
        var l :| 0 <= l < |c| && r.value == c[..l];
        UnnestPrefix(tags[1..], x, l);
      }
    }
  }

  /** Content comes back from any depth of nesting, exactly if the body of the outermost object is
      shorter than 2^31. */
  lemma {:induction false} UnnestNest(tags: seq<byte>, x: Bytes)
    requires Fits(tags, x)
    ensures Unnest(tags, Nest(tags, x)) == Some(x) <==> tags == [] || |Nest(tags[1..], x)| < SIGN
    decreases |tags|
  {
    hide Enter, Encode, Header;
    if tags != [] {
      var c := Nest(tags[1..], x);
      assert Encode(tags[0], c) + [] == Encode(tags[0], c);
      if |c| < SIGN {
        EnterEncode(tags[0], c, [], tags[0]);
        if tags[1..] != [] {
          EncodeLonger(tags[1], Nest(tags[1..][1..], x));
        }
        UnnestNest(tags[1..], x);
      } else {
        EnterLong(tags[0], c);
        var r := Enter(Nest(tags, x), tags[0]);
        if r.Some? {
          UnnestPrefix(tags[1..], x, |c| % WORD);
        }
      }
    }
  }

  /** Entering an object whose body is too long fails, or gives only the beginning of the body. */
  lemma {:induction false} EnterLong(tag: byte, x: Bytes)
    requires SIGN <= |x| < WORD * WORD
    ensures var r := Enter(Encode(tag, x), tag); r.Some? ==> |x| % WORD < |x| && r.value == x[..|x| % WORD]
  {
    hide Start, Header;
    StartHeader(tag, x, [], tag);
    var h := Header(tag, |x|);
    assert h + x + [] == h + x;
    assert forall l :: 0 <= l <= |x| ==> (h + x)[|h|..|h| + l] == x[..l];
  }

  lemma {:induction false} EncodeLonger(tag: byte, x: Bytes)
    requires |x| < WORD * WORD
    ensures |Encode(tag, x)| >= |x| + 2
  {
    hide Digits;
  }

  // ----- Going through a list of objects

  datatype Object = Object(tag: byte, body: Bytes)

  /** Every body has a length that fits the header. */
  predicate Sized(objects: seq<Object>) {
    forall i :: 0 <= i < |objects| ==> |objects[i].body| < WORD * WORD
  }

  function EncodeAll(objects: seq<Object>): Bytes
    requires Sized(objects)
  {
    if objects == [] then [] else Encode(objects[0].tag, objects[0].body) + EncodeAll(objects[1..])
  }

  /** The objects that a loop sees which skips one object after the other until nothing is left.  It
      ends, since what is skipped has at least two bytes, and nothing is left after a failure. */
  function Visit(c: Bytes): seq<Bytes>
    decreases |c|
  {
    if c == [] then [] else
      var first := First(c, ANY);
      var after := After(c, ANY);
      if first.None? || after.None? || |after.value| >= |c| then [c] else [first.value] + Visit(after.value)
  }

  /** A successful skip consumes at least two bytes, so that the last test above never applies. */
  lemma {:induction false} SkipShrinks(c: Bytes, tag: int)
    ensures After(c, tag).Some? <==> First(c, tag).Some?
    ensures After(c, tag).Some? ==> |After(c, tag).value| + 2 <= |c| && First(c, tag).value + After(c, tag).value == c
  {
    hide Start;
  }

  function EncodeEach(objects: seq<Object>): (r: seq<Bytes>)
    requires Sized(objects)
    ensures |r| == |objects|
  {
    seq(|objects|, i requires 0 <= i < |objects| => Encode(objects[i].tag, objects[i].body))
  }

  /** An object that the loop sees as it is: a short one, or the last, if its length is read as negative
      so that it is not skipped. */
  predicate Seen(o: Object, last: bool) {
    |o.body| < SIGN || (last && |o.body| % WORD >= SIGN)
  }

  predicate AllSeen(objects: seq<Object>) {
    forall i :: 0 <= i < |objects| ==> Seen(objects[i], i == |objects| - 1)
  }

  /** The loop sees exactly the objects that were written, if and only if all bodies but the last are
      shorter than 2^31, and the last is too or is read as having a negative length. */
  lemma {:induction false} VisitAll(objects: seq<Object>)
    requires Sized(objects)
    ensures Visit(EncodeAll(objects)) == EncodeEach(objects) <==> AllSeen(objects)
  {
    hide First, After, Encode, Seen;
    if objects != [] {
      var o, rest := objects[0], objects[1..];
      var e := Encode(o.tag, o.body);
      EncodeLonger(o.tag, o.body);
      assert EncodeEach(objects) == [e] + EncodeEach(rest);
      SplitSeen(objects);
      SeenIs(o, rest == []);
      if |o.body| < SIGN {
        EnterEncode(o.tag, o.body, EncodeAll(rest), ANY);
        VisitAll(rest);
        assert Visit(EncodeAll(objects)) == [e] + Visit(EncodeAll(rest));
        ConsSame(e, Visit(EncodeAll(rest)), EncodeEach(rest));
      } else {
        VisitLong(o.tag, o.body, EncodeAll(rest));
        assert rest == [] ==> EncodeAll(rest) == [] && EncodeEach(rest) == [] && AllSeen(rest);
        assert rest != [] ==> EncodeAll(rest) != [] by {
          if rest != [] {
            EncodeLonger(rest[0].tag, rest[0].body);
          }
        }
        assert EncodeEach(objects)[0] == e;
      }
    }
  }

  /** What the loop sees if the body of the first object is too long: everything as one object if the
      length is read as negative, and otherwise only the beginning of the object. */
  lemma {:induction false} VisitLong(tag: byte, x: Bytes, rest: Bytes)
    requires SIGN <= |x| < WORD * WORD
    ensures var e := Encode(tag, x);
            var seen := Visit(e + rest);
            if |x| % WORD >= SIGN then seen == [e + rest] && (seen[0] == e <==> rest == [])
            else seen != [] && seen[0] != e
  {
    hide First, After, Encode;
    var e := Encode(tag, x);
    EncodeLonger(tag, x);
    FirstLong(tag, x, rest);
    SkipShrinks(e + rest, ANY);
    assert rest == [] ==> e + rest == e;
    assert rest != [] ==> |e + rest| > |e|;
  }

  lemma {:induction false} SeenIs(o: Object, last: bool)
    ensures Seen(o, last) <==> |o.body| < SIGN || (last && |o.body| % WORD >= SIGN)
  {
  }

  lemma {:induction false} ConsSame(e: Bytes, a: seq<Bytes>, b: seq<Bytes>)
    ensures [e] + a == [e] + b <==> a == b
  {
    assert ([e] + a)[1..] == a && ([e] + b)[1..] == b;
  }

  lemma {:induction false} SplitSeen(objects: seq<Object>)
    requires objects != []
    ensures AllSeen(objects) <==> Seen(objects[0], objects[1..] == []) && AllSeen(objects[1..])
  {
    hide Seen;
    assert forall i :: 0 < i < |objects| ==> objects[i] == objects[1..][i - 1];
    if Seen(objects[0], objects[1..] == []) && AllSeen(objects[1..]) {
      forall i | 0 <= i < |objects| ensures Seen(objects[i], i == |objects| - 1) {
        if i > 0 {
          assert Seen(objects[1..][i - 1], i - 1 == |objects[1..]| - 1);
        }
      }
    }
  }

  /** The first object, if its body is too long: it is not recognised, or only its beginning is. */
  lemma {:induction false} FirstLong(tag: byte, x: Bytes, rest: Bytes)
    requires SIGN <= |x| < WORD * WORD
    ensures var c := Encode(tag, x) + rest;
            if |x| % WORD >= SIGN then First(c, ANY).None?
            else First(c, ANY).Some? && |First(c, ANY).value| < |Encode(tag, x)|
  {
    hide Start, Header;
    StartHeader(tag, x, rest, ANY);
    assert Header(tag, |x|) + x + rest == Encode(tag, x) + rest;
    if |x| % WORD < SIGN {
      SmallerRemainder(|x|);
    }
  }

  lemma {:induction false} SmallerRemainder(n: nat)
    requires n >= SIGN && n % WORD < SIGN
    ensures n % WORD < n
  {
  }
}
