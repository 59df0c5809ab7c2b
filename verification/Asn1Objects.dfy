/** Cursors and builders that are updated in place. */
module Asn1Objects {
  import opened Bits
  import opened ByteStrings
  import opened Asn1

  /** A place in some memory and the number of bytes that follow it. */
  class Cursor {
    var memory: Bytes
    var data: nat
    var len: nat

    ghost predicate Valid()
      reads this
    {
      data + len <= |memory|
    }

    ghost function Contents(): Bytes
      requires Valid()
      reads this
    {
      memory[data..data + len]
    }

    constructor (bytes: Bytes)
      ensures Valid() && Contents() == bytes
    {
      memory, data, len := bytes, 0, |bytes|;
    }

    /** Point to an object that is no object. */
    method Invalidate()
      modifies this
      ensures Valid() && len == 0
    {
      memory, data, len := [0, 0], 0, 0;
    }

    method Advance()
      requires Valid() && len > 0
      modifies this`data, this`len
      ensures Valid() && Contents() == old(Contents())[1..] && len == old(len) - 1 && data == old(data) + 1
    {
      data, len := data + 1, len - 1;
    }

    /** Start reading an object.  The cursor moves to its body, or to where reading failed. */
    method StartObject(tag: int) returns (r: Outcome)
      requires Valid()
      modifies this`data, this`len
      ensures Valid() && data + len == old(data + len) && data == old(data) + Start(old(Contents()), tag).1
      ensures r == Start(old(Contents()), tag).0
    {
      hide Number;
      ghost var c := Contents();
      if len < 2 {
        return Failed(Empty);
      }
      assert memory[data] == c[0];
      if tag != ANY && tag != memory[data] {
        return Failed(Mismatch);
      }
      Advance();
      var size := memory[data];
      assert memory[data] == c[1];
      if size >= 128 {
        size := size - 128;
        Advance();
      } else {
        size := 1;
      }
      if len < size {
        return Failed(BadLengthLength);
      }
      ghost var at := data - old(data);
      var n := ReadNumber(size, c, at);
      if len < n {
        return Failed(BadLength);
      }
      return if n >= SIGN then Failed(Negative) else Length(n);
    }

    /** Read the length byte by byte into 32 bits. */
    method ReadNumber(size: nat, ghost c: Bytes, ghost at: nat) returns (n: nat)
      requires Valid() && size <= len && at + len == |c| && Contents() == c[at..]
      modifies this`data, this`len
      ensures Valid() && data == old(data) + size && len == old(len) - size
      ensures n == Number(c[at..at + size])
    {
      hide Number;
      n := 0;
      assert Number([]) == 0 by { NumberNone(); }
      assert c[at..at] == [];
      for k := 0 to size
        invariant Valid() && memory == old(memory) && data == old(data) + k && len == old(len) - k
        invariant n == Number(c[at..at + k])
      {
        assert memory[data] == old(Contents())[k] == c[at + k];
        NumberNext(c, at, k);
        n := (n * 256 + memory[data]) % WORD;
        data, len := data + 1, len - 1;
      }
    }

    /** Enter an object, or invalidate the cursor. */
    method EnterObject(tag: int) returns (r: Outcome)
      requires Valid()
      modifies this
      ensures Valid()
      ensures r.Length? <==> Enter(old(Contents()), tag).Some?
      ensures r.Length? ==> Contents() == Enter(old(Contents()), tag).value
      ensures r.Failed? ==> len == 0
    {
      hide Start;
      ghost var c := Contents();
      r := StartObject(tag);
      if r.Failed? {
        Invalidate();
        return;
      }
      len := r.len;
      SliceOfSlice(memory, old(data), old(len), Start(c, tag).1, Start(c, tag).1 + r.len);
    }

    /** Move past an object.  The cursor also fails at the end of all objects.  A failure leaves it where
        it was exactly if there is no object or one of another type. */
    method SkipIfExists(tag: int) returns (r: Outcome)
      requires Valid()
      modifies this`data, this`len
      ensures Valid() && data + len == old(data + len)
      ensures r.Length? <==> After(old(Contents()), tag).Some? && After(old(Contents()), tag).value != []
      ensures After(old(Contents()), tag).Some? ==> Contents() == After(old(Contents()), tag).value
      ensures After(old(Contents()), tag).None? ==> data == old(data) + Start(old(Contents()), tag).1
      ensures r.Failed? ==> (data == old(data) <==> r.reason == Empty || r.reason == Mismatch)
    {
      hide Start;
      ghost var c := Contents();
      StartMoves(c, tag);
      r := StartObject(tag);
      if r.Failed? {
        return;
      }
      data, len := data + r.len, len - r.len;
      SliceOfSlice(memory, old(data), old(len), Start(c, tag).1 + r.len, |c|);
      assert c[Start(c, tag).1 + r.len..|c|] == c[Start(c, tag).1 + r.len..];
      if len == 0 {
        return Failed(End);
      }
    }

    /** Move past an object, or invalidate the cursor.  Either way less is left. */
    method Skip(tag: int) returns (r: Outcome)
      requires Valid()
      modifies this
      ensures Valid() && (old(len) > 0 ==> len < old(len))
      ensures r.Length? <==> After(old(Contents()), tag).Some? && After(old(Contents()), tag).value != []
      ensures r.Length? ==> Contents() == After(old(Contents()), tag).value && len + 2 <= old(len)
      ensures r.Failed? ==> len == 0
    {
      hide Start, After;
      SkipShrinks(Contents(), tag);
      r := SkipIfExists(tag);
      if r.Failed? {
        Invalidate();
      }
    }

    /** Shrink the cursor to its first object, or invalidate it. */
    method Shrink(tag: int) returns (r: Outcome)
      requires Valid()
      modifies this
      ensures Valid()
      ensures r.Length? <==> First(old(Contents()), tag).Some?
      ensures r.Length? ==> Contents() == First(old(Contents()), tag).value
      ensures r.Failed? ==> len == 0
    {
      hide Start;
      ghost var c := Contents();
      var temp := new Cursor(memory[data..data + len]);
      temp.memory, temp.data, temp.len := memory, data, len;
      r := temp.StartObject(tag);
      if r.Failed? {
        Invalidate();
        return;
      }
      len := temp.data + r.len - data;
      SliceOfSlice(memory, data, old(len), 0, len);
      assert c[0..len] == c[..len];
    }

    /** A loop that looks at one object after the other. */
    method ForEach() returns (seen: seq<Bytes>)
      requires Valid()
      modifies this
      ensures seen == Visit(old(Contents()))
    {
      hide First, After, Visit;
      seen := [];
      ghost var all := Visit(Contents());
      while len > 0
        invariant Valid() && seen + Visit(Contents()) == all
        decreases len
      {
        ghost var c := Contents();
        VisitIs(c);
        SkipShrinks(c, ANY);
        var copy := new Cursor(memory[data..data + len]);
        var s := copy.Shrink(ANY);
        var item := if s.Length? then copy.memory[copy.data..copy.data + copy.len] else memory[data..data + len];
        seen := seen + [item];
        var r := Skip(ANY);
        assert r.Failed? ==> Contents() == [];
        assert Visit([]) == [] by { VisitIs([]); }
      }
      VisitIs(Contents());
    }
  }

  // ----- Building

  /** Data that grows at the front.  No data although the length is not zero means that memory ran
      out. */
  class Builder {
    var data: array?<byte>
    var len: nat

    ghost predicate Valid()
      reads this
    {
      data != null ==> data.Length == len
    }

    /** Memory ran out while there was data. */
    ghost predicate Broken()
      reads this
    {
      data == null && len > 0
    }

    ghost function Contents(): Bytes
      requires Valid()
      reads this, data
    {
      if data == null then [] else data[..]
    }

    constructor ()
      ensures Valid() && !Broken() && Contents() == []
    {
      data, len := null, 0;
    }

    /** Make room at the front.  Running out of memory loses the data, and is remembered exactly if
        there was any. */
    method Grow(extra: nat, memory: bool) returns (ok: bool)
      requires Valid()
      modifies this
      ensures Valid() && ok == (!old(Broken()) && (memory || old(len) + extra == 0))
      ensures ok ==> data != null && fresh(data) && len == old(len) + extra && data[extra..] == old(Contents())
      ensures !ok ==> data == null && len == old(len)
    {
      if len > 0 && data == null {
        return false;
      }
      var newLen := len + extra;
      if !memory && newLen > 0 {
        data := null;
        return false;
      }
      var fresh_ := new byte[newLen](i => 0);
      if data != null {
        for i := 0 to len
          invariant data == old(data) && len == old(len) && fresh_.Length == newLen
          invariant fresh_[extra..extra + i] == data[..i]
        {
          fresh_[extra + i] := data[i];
        }
        assert data[..len] == data[..];
      }
      assert fresh_[extra..] == Contents();
      data, len := fresh_, newLen;
      return true;
    }

    method Fill(at: nat, x: Bytes)
      requires data != null && at + |x| <= data.Length
      modifies data
      ensures data[..] == Put(old(data[..]), at, x)
    {
      for i := 0 to |x|
        invariant forall k :: at <= k < at + i ==> data[k] == x[k - at]
        invariant forall k :: 0 <= k < data.Length && !(at <= k < at + i) ==> data[k] == old(data[k])
      {
        data[at + i] := x[i];
      }
      assert data[..] == Put(old(data[..]), at, x);
    }

    /** Put data before what there is. */
    method PrependRaw(x: Bytes, memory: bool) returns (ok: bool)
      requires Valid()
      modifies this
      ensures Valid() && ok == (!old(Broken()) && (memory || old(len) + |x| == 0))
      ensures ok ==> data != null && Contents() == x + old(Contents())
      ensures !ok ==> len == old(len) && data == null
    {
      ok := Grow(|x|, memory);
      if ok {
        Fill(0, x);
      }
    }

    /** Put an object before what there is. */
    method Prepend(tag: byte, x: Bytes, memory: bool) returns (ok: bool)
      requires Valid() && |x| < WORD * WORD
      modifies this
      ensures Valid() && ok == (!old(Broken()) && memory)
      ensures ok ==> data != null && Contents() == Encode(tag, x) + old(Contents())
      ensures !ok ==> len == old(len) && data == null
    {
      hide Header, Put;
      var header := MakeHeader(tag, |x|);
      ok := Grow(|header| + |x|, memory);
      if ok {
        TwoFills(data[..], header, x);
        Fill(0, header);
        Fill(|header|, x);
      }
    }

    /** Turn what there is into the body of one object. */
    method Wrap(tag: byte, memory: bool) returns (ok: bool)
      requires Valid() && len < WORD * WORD
      modifies this
      ensures Valid() && ok == (!old(Broken()) && memory)
      ensures ok ==> data != null && |old(Contents())| == old(len) && Contents() == Encode(tag, old(Contents()))
      ensures !ok ==> len == old(len) && data == null
    {
      hide Header;
      var header := MakeHeader(tag, len);
      ok := Grow(|header|, memory);
      if ok {
        Fill(0, header);
      }
    }
  }

  /** Filling in a header and then a body, and what was there before stays behind them. */
  lemma {:induction false} TwoFills(d: Bytes, header: Bytes, x: Bytes)
    requires |header| + |x| <= |d|
    ensures |Put(d, 0, header)| == |d|
    ensures Put(Put(d, 0, header), |header|, x) == header + x + d[|header| + |x|..]
  {
    var e := Put(d, 0, header);
    assert e[..|header|] == header && e[|header| + |x|..] == d[|header| + |x|..];
  }

  /** The header of an object, its length filled in from the last byte. */
  method MakeHeader(tag: byte, len: nat) returns (h: Bytes)
    requires len < WORD * WORD
    ensures h == Header(tag, len)
  {
    hide Digits;
    if len < 128 {
      return [tag, len];
    }
    DigitsShort(len, 8);
    var size, temp := 0, len;
    while temp > 0
      invariant size + |Digits(temp)| == |Digits(len)|
      decreases temp
    {
      DigitsNext(temp);
      size, temp := size + 1, temp / 256;
    }
    assert size == |Digits(len)| by { DigitsNone(); }
    var length := new byte[size](i => 0);
    ghost var d := Digits(len);
    temp := len;
    var at := size;
    while temp > 0
      invariant 0 <= at <= size == length.Length && at == |Digits(temp)| && d[..at] == Digits(temp)
                && length[at..] == d[at..]
      decreases temp
    {
      DigitsNext(temp);
      assert d[..at - 1] == d[..at][..at - 1] == Digits(temp / 256);
      assert d[at - 1] == d[..at][at - 1] == temp % 256;
      ghost var tail := length[at..];
      at := at - 1;
      length[at] := temp % 256;
      assert length[at..] == [temp % 256] + tail;
      SplitFirst(d, at);
      temp := temp / 256;
    }
    assert at == 0 by { DigitsNone(); }
    assert length[..] == d;
    return [tag, 128 + size] + length[..];
  }

  lemma {:induction false} SplitFirst(d: Bytes, i: nat)
    requires i < |d|
    ensures d[i..] == [d[i]] + d[i + 1..]
  {
  }

  lemma {:induction false} DigitsNone()
    ensures Digits(0) == []
  {
  }

  lemma {:induction false} DigitsNext(x: nat)
    requires x > 0
    ensures Digits(x) == Digits(x / 256) + [x % 256]
  {
  }

  /** Wrap content in objects of the given types, the last first, and enter them again: the content
      comes back exactly if all bodies are shorter than 2^31. */
  method NestAndUnnest(tags: seq<byte>, x: Bytes) returns (ok: bool, y: Bytes)
    requires Fits(tags, x)
    ensures ok <==> Unnest(tags, Nest(tags, x)).Some?
    ensures ok && y == x <==> tags == [] || |Nest(tags[1..], x)| < SIGN
  {
    hide Header, Start, Encode, Enter;
    var builder := new Builder();
    ok := builder.PrependRaw(x, true);
    var k := |tags|;
    assert tags[k..] == [] && builder.Contents() == x;
    while k > 0
      invariant 0 <= k <= |tags| && builder.Valid() && !builder.Broken() && fresh(builder)
      invariant Fits(tags[k..], x) && builder.Contents() == Nest(tags[k..], x) && builder.len == |builder.Contents()|
    {
      k := k - 1;
      FitsTail(tags, k, x);
      assert tags[k..][1..] == tags[k + 1..];
      ok := builder.Wrap(tags[k], true);
    }
    assert tags[0..] == tags;
    ghost var c := Nest(tags, x);
    var cursor := new Cursor(if builder.data == null then [] else builder.data[..]);
    for i := 0 to |tags|
      invariant cursor.Valid() && fresh(cursor) && Unnest(tags[i..], cursor.Contents()) == Unnest(tags, c)
    {
      assert tags[i..][0] == tags[i] && tags[i..][1..] == tags[i + 1..];
      var r := cursor.EnterObject(tags[i]);
      if r.Failed? {
        UnnestNest(tags, x);
        return false, [];
      }
    }
    assert tags[|tags|..] == [];
    UnnestNest(tags, x);
    return true, cursor.memory[cursor.data..cursor.data + cursor.len];
  }

  lemma {:induction false} FitsTail(tags: seq<byte>, k: nat, x: Bytes)
    requires k < |tags| && Fits(tags, x)
    ensures Fits(tags[k..], x)
    decreases k
  {
    hide Encode;
    if k == 0 {
      assert tags[0..] == tags;
    } else {
      assert tags[1..][k - 1..] == tags[k..];
      FitsTail(tags[1..], k - 1, x);
    }
  }

  lemma {:induction false} NumberNone()
    ensures Number([]) == 0
  {
  }

  lemma {:induction false} NumberNext(c: Bytes, at: nat, k: nat)
    requires at + k < |c|
    ensures Number(c[at..at + k + 1]) == (256 * Number(c[at..at + k]) + c[at + k]) % WORD
  {
    var d := c[at..at + k + 1];
    assert d[..|d| - 1] == c[at..at + k];
  }

  lemma {:induction false} VisitIs(c: Bytes)
    ensures c == [] ==> Visit(c) == []
    ensures c != [] && First(c, ANY).Some? ==>
              After(c, ANY).Some? && Visit(c) == [First(c, ANY).value] + Visit(After(c, ANY).value)
    ensures c != [] && First(c, ANY).None? ==> Visit(c) == [c]
  {
    hide First, After;
    SkipShrinks(c, ANY);
  }
}
