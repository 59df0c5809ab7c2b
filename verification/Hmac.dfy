/** Keyed hashes over an arbitrary hash function, with buffers that may overlap: the result may be
    stored over the key.
  */
module Hmac {
  import opened Bits
  import opened ByteStrings

  /** A hash function with its block size and the size of its digests. */
  datatype Hash = Hash(h: Bytes -> Bytes, block: nat, size: nat)
  {
    ghost predicate Valid() {
      0 < size <= block && forall m: Bytes :: |h(m)| == size
    }
  }

  /** A key filled up with zeros to the block size, each byte combined with a constant. */
  function Pad(key: Bytes, block: nat, c: byte): (p: Bytes)
    requires |key| <= block
    ensures |p| == block && forall i :: 0 <= i < block ==> p[i] == if i < |key| then XorByte(key[i], c) else c
  {
    XorZero(c);
    seq(block, i requires 0 <= i < block => PadByte(key, i, c))
  }

  function PadByte(key: Bytes, i: nat, c: byte): byte {
    XorByte(if i < |key| then key[i] else 0, c)
  }

  /** The key itself, or its digest if it is longer than a block. */
  function Reduced(hash: Hash, key: Bytes): (k: Bytes)
    requires hash.Valid()
    ensures |k| <= hash.block
  {
    if |key| > hash.block then hash.h(key) else key
  }

  /** The keyed hash of a message. */
  function Mac(hash: Hash, key: Bytes, m: Bytes): (d: Bytes)
    requires hash.Valid()
    ensures |d| == hash.size
  {
    var k := Reduced(hash, key);
    hash.h(Pad(k, hash.block, 0x5c) + hash.h(Pad(k, hash.block, 0x36) + m))
  }

  /** RFC 2104, written out: the inner hash starts with the key combined with 0x36 and then bytes 0x36 up to a
      block, the outer one likewise with 0x5c, and a key longer than a block is replaced by its digest. */
  lemma {:induction false} MacIs(hash: Hash, key: Bytes, m: Bytes, inner: Bytes, outer: Bytes)
    requires hash.Valid() && |inner| == |outer| == hash.block
    requires forall i :: 0 <= i < hash.block ==> inner[i] == if i < |key| then XorByte(key[i], 0x36) else 0x36
    requires forall i :: 0 <= i < hash.block ==> outer[i] == if i < |key| then XorByte(key[i], 0x5c) else 0x5c
    ensures |key| <= hash.block ==> Mac(hash, key, m) == hash.h(outer + hash.h(inner + m))
    ensures |key| > hash.block ==> Mac(hash, key, m) == Mac(hash, hash.h(key), m)
  {
    hide XorByte;
    if |key| <= hash.block {
      assert Pad(key, hash.block, 0x36) == inner && Pad(key, hash.block, 0x5c) == outer;
    }
  }

  /** Zeros after a key, up to a block, make no difference. */
  lemma {:induction false} ZeroExtended(hash: Hash, key: Bytes, n: nat, m: Bytes)
    requires hash.Valid() && |key| + n <= hash.block
    ensures Mac(hash, key + seq(n, i => 0), m) == Mac(hash, key, m)
  {
    hide XorByte;
    var key' := key + seq(n, i => 0);
    forall c: byte ensures Pad(key', hash.block, c) == Pad(key, hash.block, c) {
      XorZero(c);
    }
  }

  lemma {:induction false} XorZero(c: byte)
    ensures XorByte(0, c) == c
  {
  }

  // ----- In place

  method Store(buffer: array<byte>, x: Bytes)
    requires |x| <= buffer.Length
    modifies buffer
    ensures buffer[..|x|] == x && buffer[|x|..] == old(buffer[|x|..])
  {
    for i := 0 to |x|
      invariant buffer[..i] == x[..i] && buffer[i..] == old(buffer[i..])
    {
      buffer[i] := x[i];
    }
  }

  /** Replace a key that is longer than a block by its digest. */
  method ReduceKey(hash: Hash, key: array<byte>, len: nat) returns (len': nat)
    requires hash.Valid() && len <= key.Length
    modifies key
    ensures len' <= hash.block && len' <= key.Length && key[..len'] == Reduced(hash, old(key[..len]))
    ensures len <= hash.block ==> len' == len && key[..] == old(key[..])
  {
    len' := len;
    if len > hash.block {
      var d := hash.h(key[..len]);
      Store(key, d);
      len' := hash.size;
    }
  }

  /** A key padded to a block, built in a buffer of its own. */
  method MakePad(hash: Hash, key: array<byte>, len: nat, c: byte) returns (pad: Bytes)
    requires len <= hash.block && len <= key.Length
    ensures pad == Pad(key[..len], hash.block, c)
  {
    hide XorByte;
    var buffer := new byte[hash.block](i => 0);
    for i := 0 to len
      invariant fresh(buffer) && buffer[..i] == key[..i] && forall k :: i <= k < hash.block ==> buffer[k] == 0
    {
      buffer[i] := key[i];
    }
    ghost var filled := buffer[..];
    assert forall k :: 0 <= k < hash.block ==> filled[k] == if k < len then key[k] else 0;
    for i := 0 to hash.block
      invariant fresh(buffer) && buffer[i..] == filled[i..]
      invariant forall k :: 0 <= k < i ==> buffer[k] == XorByte(filled[k], c)
    {
      assert buffer[i..][0] == filled[i];
      buffer[i] := XorByte(buffer[i], c);
    }
    pad := buffer[..];
  }

  /** Start a keyed hash.  The context is what has been hashed so far. */
  method Init(hash: Hash, key: array<byte>, len: nat) returns (context: Bytes, len': nat)
    requires hash.Valid() && len <= key.Length
    modifies key
    ensures len' <= hash.block && len' <= key.Length && key[..len'] == Reduced(hash, old(key[..len]))
    ensures len <= hash.block ==> len' == len && key[..] == old(key[..])
    ensures context == Pad(key[..len'], hash.block, 0x36)
    ensures |context| == hash.block
            && forall i :: 0 <= i < hash.block ==> context[i] == if i < len' then XorByte(key[i], 0x36) else 0x36
  {
    len' := ReduceKey(hash, key, len);
    context := MakePad(hash, key, len', 0x36);
  }

  /** Finish a keyed hash.  A key that is longer than a block is replaced by its digest first, and the
      result may be stored over the key. */
  method Final(hash: Hash, context: Bytes, key: array<byte>, len: nat, mac: array<byte>) returns (len': nat)
    requires hash.Valid() && len <= key.Length && hash.size <= mac.Length
    modifies key, mac
    ensures mac[..hash.size] == hash.h(Pad(Reduced(hash, old(key[..len])), hash.block, 0x5c) + hash.h(context))
    ensures len <= hash.block ==>
              mac[..hash.size]
              == hash.h(seq(hash.block, i requires 0 <= i < hash.block =>
                          if i < len then XorByte(old(key[i]), 0x5c) else 0x5c) + hash.h(context))
    ensures len' <= hash.block && len' <= key.Length && (len <= hash.block ==> len' == len)
    ensures key != mac ==> key[..len'] == Reduced(hash, old(key[..len])) && mac[hash.size..] == old(mac[hash.size..])
    ensures len <= hash.block && key != mac ==> key[..] == old(key[..])
  {
    hide XorByte;
    len' := ReduceKey(hash, key, len);
    var pad := MakePad(hash, key, len', 0x5c);
    assert len <= hash.block ==>
             pad == seq(hash.block, i requires 0 <= i < hash.block =>
                      if i < len then XorByte(old(key[i]), 0x5c) else 0x5c);
    Store(mac, hash.h(context));
    var outer := pad + mac[..hash.size];
    Store(mac, hash.h(outer));
  }

  /** A keyed hash in one go, for a key of any length, into a buffer that may be the key's own. */
  method MacInto(hash: Hash, key: array<byte>, len: nat, m: Bytes, mac: array<byte>)
    requires hash.Valid() && len <= key.Length && hash.size <= mac.Length
    modifies key, mac
    ensures mac[..hash.size] == Mac(hash, old(key[..len]), m)
    ensures len <= hash.block && key != mac ==> key[..] == old(key[..])
  {
    hide Pad;
    var context, n := Init(hash, key, len);
    n := Final(hash, context + m, key, n, mac);
  }
}
