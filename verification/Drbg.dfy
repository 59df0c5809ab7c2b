/** The HMAC_DRBG random bit generator of NIST SP 800-90, section 10.1.2, over an arbitrary hash
    function: its state is updated in place, and its keys are computed over themselves.
  */
module Drbg {
  import opened Bits
  import opened ByteStrings
  import opened Hmac

  const RESEED_INTERVAL: nat := 1024
  const MAX_LENGTH: nat := 0xffff
  const MAX_ADDITIONAL: nat := 0xffff_ffff

  // ----- The standard's algorithms

  datatype Working = Working(key: Bytes, value: Bytes, counter: nat)

  /** Section 10.1.2.2. */
  function Update(hash: Hash, w: Working, data: Bytes): Working
    requires hash.Valid()
  {
    var k1 := Mac(hash, w.key, w.value + [0] + data);
    var v1 := Mac(hash, k1, w.value);
    if data == [] then Working(k1, v1, w.counter) else
      var k2 := Mac(hash, k1, v1 + [1] + data);
      Working(k2, Mac(hash, k2, v1), w.counter)
  }

  /** Section 10.1.2.4. */
  function Reseed(hash: Hash, w: Working, entropy: Bytes, additional: Bytes): Working
    requires hash.Valid()
  {
    Update(hash, w, entropy + additional).(counter := 1)
  }

  /** The value after some steps, each of which hashes the one before. */
  function ValueAfter(hash: Hash, key: Bytes, value: Bytes, n: nat): Bytes
    requires hash.Valid()
  {
    if n == 0 then value else Mac(hash, key, ValueAfter(hash, key, value, n - 1))
  }

  /** The values of the first `n` steps one after the other. */
  function Stream(hash: Hash, key: Bytes, value: Bytes, n: nat): (s: Bytes)
    requires hash.Valid()
    ensures |s| == n * hash.size
  {
    if n == 0 then [] else
      assert n * hash.size == (n - 1) * hash.size + hash.size;
      Stream(hash, key, value, n - 1) + ValueAfter(hash, key, value, n)
  }

  /** The number of steps that a request takes. */
  function StepsFor(hash: Hash, len: nat): (n: nat)
    requires hash.Valid()
    ensures n * hash.size >= len && (len > 0 ==> n > 0 && (n - 1) * hash.size < len) && (len == 0 ==> n == 0)
  {
    Covering(len, hash.size);
    (len + hash.size - 1) / hash.size
  }

  lemma {:induction false} Covering(len: nat, size: nat)
    requires size > 0
    ensures var n := (len + size - 1) / size;
            n >= 0 && n * size >= len && (len > 0 ==> n > 0 && (n - 1) * size < len) && (len == 0 ==> n == 0)
  {
    var x := len + size - 1;
    var n := x / size;
    assert x == n * size + x % size;
    assert (n - 1) * size == n * size - size;
    DivNonnegative(x, size);
    if n <= 0 {
      MulMono(size, n, 0);
    }
    if len == 0 {
      DivModUnique(x, 0, size, size - 1);
    }
  }

  datatype Generated = NeedReseed | Generated(output: Bytes, next: Working)

  /** Section 10.1.2.5: the leftmost bytes of the values. */
  function Generate(hash: Hash, w: Working, additional: Bytes, len: nat): Generated
    requires hash.Valid()
  {
    if w.counter > RESEED_INTERVAL then NeedReseed else
      var w1 := if additional != [] then Update(hash, w, additional) else w;
      var n := StepsFor(hash, len);
      var w2 := w1.(value := ValueAfter(hash, w1.key, w1.value, n));
      Generated(Stream(hash, w1.key, w1.value, n)[..len], Update(hash, w2, additional).(counter := w.counter + 1))
  }

  // ----- The same step by step

  /** The steps of section 10.1.2.2: one pass with the byte 0, and one with the byte 1 exactly if there is
      data. */
  lemma {:induction false} UpdateSteps(hash: Hash, w: Working, data: Bytes)
    requires hash.Valid()
    ensures var k1 := Mac(hash, w.key, w.value + [0x00] + data);
            var v1 := Mac(hash, k1, w.value);
            var k2 := Mac(hash, k1, v1 + [0x01] + data);
            && Update(hash, w, data).counter == w.counter
            && (data == [] ==> Update(hash, w, data).key == k1 && Update(hash, w, data).value == v1)
            && (data != [] ==> Update(hash, w, data).key == k2 && Update(hash, w, data).value == Mac(hash, k2, v1))
  {
    hide Mac;
  }

  /** Section 10.1.2.4: entropy comes before additional input, and the counter starts again at one. */
  lemma {:induction false} ReseedSteps(hash: Hash, w: Working, entropy: Bytes, additional: Bytes)
    requires hash.Valid()
    ensures var u := Update(hash, w, entropy + additional);
            Reseed(hash, w, entropy, additional) == Working(u.key, u.value, 1)
  {
    hide Update;
  }

  /** The first part of the output and each further one are keyed hashes of the value before. */
  lemma {:induction false} OutputBlocks(hash: Hash, key: Bytes, value: Bytes, n: nat, i: nat)
    requires hash.Valid() && i < n
    ensures var s := Stream(hash, key, value, n);
            && (i + 1) * hash.size == i * hash.size + hash.size && 0 <= i * hash.size && (i + 1) * hash.size <= |s|
            && s[i * hash.size..(i + 1) * hash.size]
               == Mac(hash, key, if i == 0 then value else ValueAfter(hash, key, value, i))
            && ValueAfter(hash, key, value, i + 1) == s[i * hash.size..(i + 1) * hash.size]
            && ValueAfter(hash, key, value, 0) == value
    decreases n
  {
    hide Mac;
    StreamNone(hash, key, value);
    StreamNext(hash, key, value, n - 1);
    StreamNext(hash, key, value, i);
    var s, t := Stream(hash, key, value, n), Stream(hash, key, value, n - 1);
    ValueSize(hash, key, value, n);
    if i < n - 1 {
      OutputBlocks(hash, key, value, n - 1, i);
      MulMono(hash.size, i + 1, n - 1);
      assert s[i * hash.size..(i + 1) * hash.size] == t[i * hash.size..(i + 1) * hash.size];
    } else {
      assert s[i * hash.size..(i + 1) * hash.size] == ValueAfter(hash, key, value, n);
    }
  }

  lemma {:induction false} ValueSize(hash: Hash, key: Bytes, value: Bytes, n: nat)
    requires hash.Valid() && n > 0
    ensures |ValueAfter(hash, key, value, n)| == hash.size
  {
    hide Mac;
  }

  /** The steps of section 10.1.2.5: additional input goes in first if there is any; then come the output and
      its last value; then the state is updated with the additional input, and one more request counted. */
  lemma {:induction false} GenerateSteps(hash: Hash, w: Working, additional: Bytes, len: nat)
    requires hash.Valid()
    ensures w.counter > 1024 <==> Generate(hash, w, additional, len) == NeedReseed
    ensures w.counter <= 1024 ==>
              var w1 := if additional == [] then w else Update(hash, w, additional);
              var n := StepsFor(hash, len);
              var last := ValueAfter(hash, w1.key, w1.value, n);
              var u := Update(hash, Working(w1.key, last, w1.counter), additional);
              && Generate(hash, w, additional, len).Generated?
              && Generate(hash, w, additional, len).output == Stream(hash, w1.key, w1.value, n)[..len]
              && Generate(hash, w, additional, len).next == Working(u.key, u.value, w.counter + 1)
  {
    hide Update, Stream, ValueAfter, StepsFor;
  }

  /** The first bytes of the output without additional input. */
  lemma {:induction false} FirstOutput(hash: Hash, w: Working, len: nat)
    requires hash.Valid() && w.counter <= 1024
    ensures var g, n := Generate(hash, w, [], len), Min(len, hash.size);
            g.Generated? && |g.output| == len && g.output[..n] == Mac(hash, w.key, w.value)[..n]
  {
    hide Update, Stream, ValueAfter, StepsFor, Mac;
    var n := StepsFor(hash, len);
    if len > 0 {
      OutputBlocks(hash, w.key, w.value, n, 0);
      var s := Stream(hash, w.key, w.value, n);
      var m := Min(len, hash.size);
      assert s[..len][..m] == s[0..hash.size][..m];
    }
  }

  // ----- The state in place

  class Internal {
    const hash: Hash
    const key: array<byte>
    const value: array<byte>
    var counter: nat

    ghost predicate Valid()
      reads this
    {
      hash.Valid() && key != value && key.Length >= hash.size && value.Length >= hash.size
    }

    ghost function State(): Working
      requires Valid()
      reads this, key, value
    {
      Working(key[..hash.size], value[..hash.size], counter)
    }

    constructor (hash: Hash, max: nat)
      requires hash.Valid() && hash.size <= max
      ensures Valid() && fresh(key) && fresh(value) && this.hash == hash
    {
      this.hash := hash;
      key := new byte[max](i => 0);
      value := new byte[max](i => 0);
      counter := 0;
    }

    /** The key is replaced by a keyed hash under itself. */
    method UpdateKey(data: Bytes, single: byte)
      requires Valid()
      modifies key
      ensures State().key == Mac(hash, old(State().key), old(State().value) + [single] + data)
    {
      hide Mac;
      var v := value[..hash.size];
      MacInto(hash, key, hash.size, v + [single] + data, key);
    }

    method UpdateValue()
      requires Valid()
      modifies key, value
      ensures key[..] == old(key[..])
      ensures State() == old(State()).(value := Mac(hash, old(State().key), old(State().value)))
    {
      hide Mac;
      var v := value[..hash.size];
      MacInto(hash, key, hash.size, v, value);
    }

    method UpdateState(data: Bytes)
      requires Valid()
      modifies key, value
      ensures State() == Update(hash, old(State()), data)
      ensures var k1 := Mac(hash, old(State()).key, old(State()).value + [0x00] + data);
              var v1 := Mac(hash, k1, old(State()).value);
              var k2 := Mac(hash, k1, v1 + [0x01] + data);
              && (data == [] ==> key[..hash.size] == k1 && value[..hash.size] == v1)
              && (data != [] ==> key[..hash.size] == k2 && value[..hash.size] == Mac(hash, k2, v1))
    {
      hide Mac;
      UpdateKey(data, 0);
      UpdateValue();
      if data == [] {
        return;
      }
      UpdateKey(data, 1);
      UpdateValue();
    }

    method ReseedState(entropy: Bytes, additional: Bytes)
      requires Valid()
      modifies this`counter, key, value
      ensures State() == Reseed(hash, old(State()), entropy, additional) && counter == 1
    {
      hide Update;
      UpdateState(entropy + additional);
      counter := 1;
    }

    method Instantiate(entropy: Bytes, personal: Bytes)
      requires Valid()
      modifies this`counter, key, value
      ensures State() == Reseed(hash, Working(seq(hash.size, i => 0), seq(hash.size, i => 1), 0), entropy, personal)
    {
      hide Update;
      Store(key, seq(hash.size, i => 0));
      Store(value, seq(hash.size, i => 1));
      UpdateCounter(hash, State(), entropy + personal);
      ReseedState(entropy, personal);
    }

    method CopyValue(data: array<byte>, at: nat, size: nat)
      requires Valid() && data != key && data != value && size <= hash.size && at + size <= data.Length
      modifies data
      ensures data[..at + size] == old(data[..at]) + State().value[..size]
    {
      for i := 0 to size
        invariant data[..at + i] == old(data[..at]) + value[..i]
      {
        data[at + i] := value[i];
        assert data[..at + i + 1] == data[..at + i] + [value[i]];
      }
      assert State().value[..size] == value[..size];
    }

    /** Fill a buffer with values, the last one cut off where the buffer ends. */
    method Fill(data: array<byte>)
      requires Valid() && data != key && data != value
      modifies key, value, data
      ensures var n := StepsFor(hash, data.Length);
              && State() == old(State()).(value := ValueAfter(hash, old(State().key), old(State().value), n))
              && data[..] == Stream(hash, old(State().key), old(State().value), n)[..data.Length]
    {
      hide Mac, Stream, ValueAfter, StepsFor;
      ghost var k, v, n := State().key, State().value, 0;
      var at := 0;
      StreamNone(hash, k, v);
      while at < data.Length
        invariant 0 <= n && 0 <= at <= data.Length && (at == n * hash.size || at == data.Length)
        invariant at == data.Length ==> n == StepsFor(hash, data.Length)
        invariant State() == old(State()).(value := ValueAfter(hash, k, v, n))
        invariant at <= n * hash.size && data[..at] == Stream(hash, k, v, n)[..at]
        decreases data.Length - at
      {
        UpdateValue();
        StreamNext(hash, k, v, n);
        var size := if data.Length - at > hash.size then hash.size else data.Length - at;
        CopyValue(data, at, size);
        PrefixAppend(Stream(hash, k, v, n), ValueAfter(hash, k, v, n + 1), at, size);
        at := at + size;
        n := n + 1;
        LastStep(hash, data.Length, n, at);
      }
      assert data[..data.Length] == data[..];
    }
  }

  lemma {:induction false} PrefixAppend(a: Bytes, b: Bytes, at: nat, n: nat)
    requires at <= |a| && n <= |b| && (n > 0 ==> at == |a|)
    ensures (a + b)[..at + n] == a[..at] + b[..n]
  {
  }

  lemma {:induction false} UpdateCounter(hash: Hash, w: Working, data: Bytes)
    requires hash.Valid()
    ensures forall c: nat :: Update(hash, w.(counter := c), data).(counter := 1) == Update(hash, w, data).(counter := 1)
  {
    hide Mac;
  }

  lemma {:induction false} StreamNone(hash: Hash, key: Bytes, value: Bytes)
    requires hash.Valid()
    ensures Stream(hash, key, value, 0) == [] && ValueAfter(hash, key, value, 0) == value && StepsFor(hash, 0) == 0
  {
  }

  lemma {:induction false} StreamNext(hash: Hash, key: Bytes, value: Bytes, n: nat)
    requires hash.Valid()
    ensures ValueAfter(hash, key, value, n + 1) == Mac(hash, key, ValueAfter(hash, key, value, n))
    ensures Stream(hash, key, value, n + 1) == Stream(hash, key, value, n) + ValueAfter(hash, key, value, n + 1)
    ensures (n + 1) * hash.size == n * hash.size + hash.size && |Stream(hash, key, value, n)| == n * hash.size
  {
    hide Mac;
  }

  lemma {:induction false} LastStep(hash: Hash, len: nat, n: nat, at: nat)
    requires hash.Valid() && n > 0 && (n - 1) * hash.size < len && at <= n * hash.size
    ensures at == len ==> n == StepsFor(hash, len)
  {
    var m, s := StepsFor(hash, len), hash.size;
    if n <= m - 1 {
      MulMono(s, n, m - 1);
    }
    if m <= n - 1 {
      MulMono(s, m, n - 1);
    }
  }

  // ----- The generator

  datatype Status = Ok | Invalid | TooLong | NoEntropy

  /** Section 9.3 with the algorithms above: reseed first if asked to or if it is time, with the
      additional input used once. */
  function GenerateFunction(hash: Hash, w: Working, additional: Bytes, resist: bool, entropy: Bytes,
                            len: nat): Generated
    requires hash.Valid()
  {
    if resist || w.counter > RESEED_INTERVAL then Generate(hash, Reseed(hash, w, entropy, additional), [], len)
    else Generate(hash, w, additional, len)
  }

  /** Section 9.3: with fresh entropy the additional input is used up by the reseeding. */
  lemma {:induction false} FunctionSteps(hash: Hash, w: Working, additional: Bytes, resist: bool, entropy: Bytes,
                                         len: nat)
    requires hash.Valid()
    ensures GenerateFunction(hash, w, additional, resist, entropy, len)
            == if resist || w.counter > 1024 then Generate(hash, Reseed(hash, w, entropy, additional), [], len)
               else Generate(hash, w, additional, len)
  {
    hide Generate, Reseed;
  }

  /** Once reseeded the generator does not ask for a reseed. */
  lemma {:induction false} ReseedSuffices(hash: Hash, w: Working, additional: Bytes, resist: bool, entropy: Bytes,
                                          len: nat)
    requires hash.Valid()
    ensures GenerateFunction(hash, w, additional, resist, entropy, len).Generated?
    ensures |GenerateFunction(hash, w, additional, resist, entropy, len).output| == len
  {
    hide Update, Stream, ValueAfter;
  }

  class Generator {
    const internal: Internal
    var valid: bool
    var reseedRequired: bool

    constructor (internal: Internal)
      ensures this.internal == internal && !valid
    {
      this.internal := internal;
      valid, reseedRequired := false, false;
    }

    /** Set up the state from entropy, if there is any. */
    method Instantiate(personal: Bytes, entropy: seq<Bytes>) returns (status: Status)
      requires internal.Valid() && |entropy| <= 1
      modifies this, internal`counter, internal.key, internal.value
      ensures status == if |personal| > 0xffff_ffff then TooLong else if entropy == [] then NoEntropy else Ok
      ensures status != Ok ==> valid == old(valid) && internal.State() == old(internal.State())
      ensures status == Ok ==> valid && !reseedRequired
      ensures status == Ok ==>
                internal.State() == Reseed(internal.hash,
                  Working(seq(internal.hash.size, i => 0), seq(internal.hash.size, i => 1), 0), entropy[0], personal)
    {
      hide Update;
      if |personal| > MAX_ADDITIONAL {
        return TooLong;
      }
      if entropy == [] {
        return NoEntropy;
      }
      internal.Instantiate(entropy[0], personal);
      reseedRequired, valid := false, true;
      return Ok;
    }

    /** Mix in new entropy, if there is any. */
    method ReseedGenerator(additional: Bytes, entropy: seq<Bytes>) returns (status: Status)
      requires internal.Valid() && |entropy| <= 1
      modifies internal`counter, internal.key, internal.value
      ensures status == if !valid then Invalid else if |additional| > 0xffff_ffff then TooLong
              else if entropy == [] then NoEntropy else Ok
      ensures status != Ok ==> internal.State() == old(internal.State())
      ensures status == Ok ==> internal.State() == Reseed(internal.hash, old(internal.State()), entropy[0], additional)
    {
      hide Update;
      if !valid {
        return Invalid;
      }
      if |additional| > MAX_ADDITIONAL {
        return TooLong;
      }
      if entropy == [] {
        return NoEntropy;
      }
      internal.ReseedState(entropy[0], additional);
      return Ok;
    }

    /** Run the generate algorithm. */
    method Run(additional: Bytes, data: array<byte>) returns (ok: bool)
      requires internal.Valid() && data != internal.key && data != internal.value
      modifies internal`counter, internal.key, internal.value, data
      ensures var g := Generate(internal.hash, old(internal.State()), additional, data.Length);
              && (ok <==> g.Generated?)
              && (ok ==> data[..] == g.output && internal.State() == g.next)
              && (!ok ==> data[..] == old(data[..]) && internal.State() == old(internal.State()))
    {
      hide Update, Stream, ValueAfter;
      if internal.counter > RESEED_INTERVAL {
        return false;
      }
      if additional != [] {
        internal.UpdateState(additional);
      }
      internal.Fill(data);
      internal.UpdateState(additional);
      ghost var w := internal.State();
      internal.counter := internal.counter + 1;
      return true;
    }

    /** Generate random bytes.  The generate algorithm runs at most twice, and the second time it
        succeeds. */
    method GenerateBytes(additional: Bytes, resist: bool, data: array<byte>, entropy: seq<Bytes>)
      returns (status: Status, runs: nat)
      requires internal.Valid() && data != internal.key && data != internal.value && |entropy| <= 1
      modifies this`reseedRequired, internal`counter, internal.key, internal.value, data
      ensures runs <= 2 && (status == Ok ==> runs >= 1)
      ensures status == if !valid then Invalid
                        else if data.Length > 0xffff || |additional| > 0xffff_ffff then TooLong
                        else if (resist || old(internal.counter) > 1024)
                          && entropy == [] then NoEntropy else Ok
      ensures status != Ok ==> data[..] == old(data[..]) && internal.State() == old(internal.State())
      ensures status == Ok ==>
                var g := GenerateFunction(internal.hash, old(internal.State()), additional, resist,
                  if entropy == [] then [] else entropy[0], data.Length);
                g.Generated? && data[..] == g.output && internal.State() == g.next && !reseedRequired
      ensures status == Ok && additional == [] && !resist && old(internal.counter) <= 1024 ==>
                var n := Min(data.Length, internal.hash.size);
                data[..n] == Mac(internal.hash, old(internal.State()).key, old(internal.State()).value)[..n]
    {
      hide Update, Stream, ValueAfter;
      if internal.counter <= 1024 {
        FirstOutput(internal.hash, internal.State(), data.Length);
      }
      runs := 0;
      if !valid {
        return Invalid, 0;
      }
      if data.Length > MAX_LENGTH {
        return TooLong, 0;
      }
      if |additional| > MAX_ADDITIONAL {
        return TooLong, 0;
      }
      reseedRequired := false;
      var input, again := additional, resist;
      ghost var w := internal.State();
      while true
        invariant valid && 0 <= runs <= 1 && data[..] == old(data[..]) && internal.State() == w && input == additional
        invariant runs == 0 ==> !reseedRequired && again == resist
        invariant runs == 1 ==> again && w.counter > RESEED_INTERVAL
        decreases 2 - runs
      {
        if reseedRequired || again {
          status := ReseedGenerator(input, entropy);
          if status != Ok {
            return;
          }
          input, reseedRequired := [], false;
        }
        var ok := Run(input, data);
        runs := runs + 1;
        if ok {
          return Ok, runs;
        }
        reseedRequired, again := true, true;
      }
    }
  }
}
