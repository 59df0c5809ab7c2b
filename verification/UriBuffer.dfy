/** Printing URIs into buffers and parsing them in place.

    A string is a stretch of a buffer up to a zero byte, and is known by its offset.  The parser
    works on one copy of the text: it overwrites separators with zeros, moves the authority down by
    one byte to make room for a zero, and unescapes each field where it is.
  */
module UriBuffer {
  import opened Bits
  import opened Uri
  import opened UriRoundTrip

  // ----- Strings in a buffer

  /** The string at offset `a` is `t`. */
  ghost predicate Holds(m: seq<byte>, a: nat, t: Text) {
    a + |t| < |m| && m[a..a + |t|] == t && m[a + |t|] == 0 && IsString(t)
  }

  /** Nothing has changed outside an inclusive range of offsets. */
  ghost predicate Within(m: seq<byte>, m': seq<byte>, lo: int, hi: int) {
    |m| == |m'| && forall x :: 0 <= x < |m| && !(lo <= x <= hi) ==> m'[x] == m[x]
  }

  lemma {:induction false} WithinTrans(a: seq<byte>, b: seq<byte>, c: seq<byte>, lo: int, hi: int, lo': int, hi': int)
    requires Within(a, b, lo, hi) && Within(b, c, lo', hi') && lo <= lo' && hi' <= hi
    ensures Within(a, c, lo, hi)
  {
  }

  lemma {:induction false} HoldsKept(m: seq<byte>, m': seq<byte>, lo: int, hi: int, a: nat, t: Text)
    requires Holds(m, a, t) && Within(m, m', lo, hi) && (a + |t| < lo || hi < a)
    ensures Holds(m', a, t)
  {
    assert m'[a..a + |t|] == m[a..a + |t|];
  }

  /** A zero inside a string ends it there, and the rest is a string of its own. */
  lemma {:induction false} HoldsCut(m: seq<byte>, a: nat, t: Text, i: nat)
    requires Holds(m, a, t) && i < |t|
    ensures var m' := m[a + i := 0];
            Holds(m', a, t[..i]) && Holds(m', a + i + 1, t[i + 1..]) && Within(m, m', a, a + |t|)
  {
    var m' := m[a + i := 0];
    assert m'[a..a + i] == m[a..a + |t|][..i];
    assert m'[a + i + 1..a + |t|] == m[a..a + |t|][i + 1..];
  }

  lemma {:induction false} HoldsChar(m: seq<byte>, a: nat, t: Text, i: nat)
    requires Holds(m, a, t) && i <= |t|
    ensures a + |t| < |m| && m[a + i] == (if i < |t| then t[i] else 0) && (m[a + i] == 0 <==> i == |t|)
  {
    if i < |t| {
      assert m[a..a + |t|][i] == t[i];
    }
  }

  /** The place of a character in a string. */
  method Strchr(raw: array<byte>, a: nat, c: byte, ghost t: Text) returns (found: bool, i: nat)
    requires Holds(raw[..], a, t) && c != 0
    ensures found <==> c in t
    ensures found ==> i == a + Index(t, c)
  {
    hide Holds, Index;
    i := a;
    HoldsChar(raw[..], a, t, 0);
    while raw[i] != 0 && raw[i] != c
      invariant a <= i <= a + |t| < raw.Length && Holds(raw[..], a, t)
      invariant raw[i] == (if i - a < |t| then t[i - a] else 0) && (raw[i] == 0 <==> i - a == |t|)
      invariant c !in t[..i - a]
      decreases a + |t| - i
    {
      i := i + 1;
      HoldsChar(raw[..], a, t, i - a);
      assert t[..i - a] == t[..i - a - 1] + [t[i - a - 1]];
    }
    found := raw[i] == c;
    IndexFound(t, c, i - a);
  }

  lemma {:induction false} IndexFound(t: Text, c: byte, i: nat)
    requires i <= |t| && c !in t[..i] && (i < |t| ==> t[i] == c)
    ensures Index(t, c) == i
  {
    hide Index;
    var k := Index(t, c);
    assert forall j :: 0 <= j < i ==> t[..i][j] == t[j];
    assert forall j :: 0 <= j < k ==> t[..k][j] == t[j];
  }

  /** Cut a string at the first place of a character. */
  method Cut(raw: array<byte>, a: nat, c: byte, ghost t: Text) returns (rest: Option<nat>)
    requires Holds(raw[..], a, t) && c != 0
    modifies raw
    ensures Placed(raw[..], rest, Split(t, c).1, a + |Split(t, c).0| + 1, a + |t|)
    ensures Holds(raw[..], a, Split(t, c).0) && Within(old(raw[..]), raw[..], a, a + |t|)
  {
    hide Holds, Index, Within;
    var found, i := Strchr(raw, a, c, t);
    WithinSame(raw[..], a, a + |t|);
    if found {
      HoldsCut(raw[..], a, t, i - a);
      HoldsChar(raw[..], a, t, i - a);
      raw[i] := 0;
      assert raw[..] == old(raw[..])[i := 0];
      return Some(i + 1);
    } else {
      return None;
    }
  }

  /** A string that may be missing, and that lies between two offsets if it is not. */
  ghost predicate Placed(m: seq<byte>, a: Option<nat>, t: Option<Text>, lo: int, hi: int) {
    (a.Some? <==> t.Some?) && (a.Some? ==> Holds(m, a.value, t.value) && lo <= a.value && a.value + |t.value| <= hi)
  }

  lemma {:induction false} WithinSame(m: seq<byte>, lo: int, hi: int)
    ensures Within(m, m, lo, hi)
  {
  }

  lemma {:induction false} PlacedKept(m: seq<byte>, m': seq<byte>, lo': int, hi': int, a: Option<nat>, t: Option<Text>,
                                      lo: int, hi: int)
    requires Placed(m, a, t, lo, hi) && Within(m, m', lo', hi') && (hi < lo' || hi' < lo)
    ensures Placed(m', a, t, lo, hi)
  {
    if a.Some? {
      HoldsKept(m, m', lo', hi', a.value, t.value);
    }
  }

  // ----- Unescaping in place

  lemma {:induction false} DecodeString(t: Text)
    ensures IsString(Decode(t))
  {
    if t != [] {
      DecodeString(t[DecodeChar(t).1..]);
    }
  }

  /** The one or two characters after a percent sign. */
  method HexBuffer(raw: array<byte>, src: nat, ghost t: Text) returns (h: Text)
    requires Holds(raw[..], src, t)
    ensures h == t[..Min(|t|, 2)]
  {
    hide Holds;
    HoldsChar(raw[..], src, t, 0);
    h := [];
    while |h| < 2 && raw[src + |h|] != 0
      invariant |h| <= 2 && |h| <= |t| && src + |t| < raw.Length && h == t[..|h|]
      invariant raw[src + |h|] == 0 <==> |h| == |t|
    {
      HoldsChar(raw[..], src, t, |h|);
      HoldsChar(raw[..], src, t, |h| + 1);
      h := h + [raw[src + |h|]];
    }
  }

  lemma {:induction false} HoldsSuffix(m: seq<byte>, a: nat, t: Text, i: nat)
    requires Holds(m, a, t) && i <= |t|
    ensures Holds(m, a + i, t[i..])
  {
    assert m[a + i..a + |t|] == m[a..a + |t|][i..];
  }

  /** Read one character, unescape it and write it. */
  method DecodeOne(raw: array<byte>, src: nat, dest: nat, ghost t: Text) returns (c: byte, n: nat)
    requires Holds(raw[..], src, t) && dest <= src
    modifies raw
    ensures dest < raw.Length && raw[..] == old(raw[..])[dest := c]
    ensures if t == [] then c == 0 else DecodeChar(t) == (c, n)
  {
    hide Holds, DecodeChar, Number;
    HoldsChar(raw[..], src, t, 0);
    c, n := raw[src], 1;
    if c == PERCENT {
      HoldsSuffix(raw[..], src, t, 1);
      var h := HexBuffer(raw, src + 1, t[1..]);
      var (decoded, skip) := Number(h);
      PercentChar(t, h);
      if skip > 0 {
        c := decoded;
      }
      n := 1 + skip;
    } else {
      PlainChar(t);
    }
    raw[dest] := c;
  }

  /** Unescaping has got to offset `src`, where `rest` is left, and has written up to `dest`. */
  ghost predicate Unescaping(m: seq<byte>, a: nat, t: Text, src: nat, dest: nat, rest: Text) {
    a <= dest <= src && src + |rest| == a + |t| && Holds(m, src, rest) && m[a..dest] + Decode(rest) == Decode(t)
  }

  lemma {:induction false} UnescapingNext(m: seq<byte>, a: nat, t: Text, src: nat, dest: nat, rest: Text, c: byte,
                                          n: nat)
    requires Unescaping(m, a, t, src, dest, rest)
    requires if rest == [] then c == 0 else DecodeChar(rest) == (c, n)
    ensures dest <= a + |t| < |m|
    ensures c == 0 ==> Holds(m[dest := c], a, Decode(t))
    ensures c != 0 ==> 1 <= n <= |rest| && Unescaping(m[dest := c], a, t, src + n, dest + 1, rest[n..])
    ensures Within(m, m[dest := c], a, a + |t|)
  {
    hide Decode, DecodeChar;
    DecodeNext(rest, c, n);
    var m' := m[dest := c];
    assert m'[a..dest + 1] == m[a..dest] + [c];
    if c == 0 {
      DecodeString(t);
      assert m[a..dest] == Decode(t);
      Terminated(m', a, Decode(t));
    } else {
      HoldsSuffix(m, src, rest, n);
      HoldsKept(m, m', dest, dest, src + n, rest[n..]);
      assert m[a..dest] + ([c] + Decode(rest[n..])) == m'[a..dest + 1] + Decode(rest[n..]);
    }
  }

  /** Unescape a string where it is. */
  method DecodeInPlace(raw: array<byte>, a: nat, ghost t: Text)
    requires Holds(raw[..], a, t)
    modifies raw
    ensures Holds(raw[..], a, Decode(t)) && Within(old(raw[..]), raw[..], a, a + |t|)
  {
    hide Holds, Decode, Within, DecodeChar, Unescaping;
    var src, dest := a, a;
    ghost var rest := t;
    WithinSame(raw[..], a, a + |t|);
    UnescapingStarts(raw[..], a, t);
    var c := 1;
    while c != 0
      invariant Within(old(raw[..]), raw[..], a, a + |t|)
      invariant if c == 0 then Holds(raw[..], a, Decode(t)) else Unescaping(raw[..], a, t, src, dest, rest)
      decreases c != 0, |rest|
    {
      ghost var before := raw[..];
      assert Holds(before, src, rest) && dest <= src by { UnescapingNow(before, a, t, src, dest, rest); }
      var n;
      c, n := DecodeOne(raw, src, dest, rest);
      UnescapingNext(before, a, t, src, dest, rest, c, n);
      WithinTrans(old(raw[..]), before, raw[..], a, a + |t|, a, a + |t|);
      src, dest := src + n, dest + 1;
      if c != 0 {
        rest := rest[n..];
      }
    }
  }

  lemma {:induction false} UnescapingStarts(m: seq<byte>, a: nat, t: Text)
    requires Holds(m, a, t)
    ensures Unescaping(m, a, t, a, a, t)
  {
    hide Decode;
    assert m[a..a] + Decode(t) == Decode(t);
  }

  lemma {:induction false} UnescapingNow(m: seq<byte>, a: nat, t: Text, src: nat, dest: nat, rest: Text)
    requires Unescaping(m, a, t, src, dest, rest)
    ensures Holds(m, src, rest) && dest <= src
  {
  }

  lemma {:induction false} Terminated(m: seq<byte>, a: nat, t: Text)
    requires IsString(t) && a + |t| + 1 <= |m| && m[a..a + |t| + 1] == t + [0]
    ensures Holds(m, a, t)
  {
    assert m[a + |t|] == m[a..a + |t| + 1][|t|];
    assert m[a..a + |t|] == m[a..a + |t| + 1][..|t|];
  }

  lemma {:induction false} PercentChar(t: Text, h: Text)
    requires t != [] && t[0] == PERCENT && h == t[1..][..Min(|t| - 1, 2)]
    ensures DecodeChar(t) == (if Number(h).1 > 0 then Number(h).0 else PERCENT, 1 + Number(h).1)
    ensures Number(h).1 < |t|
  {
    hide Number;
    assert h == t[1..Min(|t|, 3)];
  }

  lemma {:induction false} PlainChar(t: Text)
    ensures t != [] && t[0] != PERCENT ==> DecodeChar(t) == (t[0], 1)
  {
  }

  lemma {:induction false} DecodeNext(t: Text, c: byte, n: nat)
    requires if t == [] then c == 0 else DecodeChar(t) == (c, n)
    ensures c == 0 ==> Decode(t) == []
    ensures c != 0 ==> 1 <= n <= |t| && Decode(t) == [c] + Decode(t[n..])
  {
    hide DecodeChar;
  }

  // ----- Splitting in place

  method Strlen(raw: array<byte>, a: nat, ghost t: Text) returns (n: nat)
    requires Holds(raw[..], a, t)
    ensures n == |t|
  {
    hide Holds;
    n := 0;
    HoldsChar(raw[..], a, t, 0);
    while raw[a + n] != 0
      invariant n <= |t| && a + |t| < raw.Length && (raw[a + n] == 0 <==> n == |t|)
      decreases |t| - n
    {
      n := n + 1;
      HoldsChar(raw[..], a, t, n);
    }
  }

  /** The last place of a character in a string. */
  method Strrchr(raw: array<byte>, a: nat, c: byte, ghost t: Text) returns (found: bool, i: nat)
    requires Holds(raw[..], a, t) && c != 0
    ensures found <==> c in t
    ensures found ==> i == a + LastIndex(t, c)
  {
    hide Holds, LastIndex;
    var n := Strlen(raw, a, t);
    assert a + |t| < raw.Length by { HoldsChar(raw[..], a, t, 0); }
    while n > 0
      invariant 0 <= n <= |t| && c !in t[n..]
    {
      n := n - 1;
      HoldsChar(raw[..], a, t, n);
      if raw[a + n] == c {
        LastIndexFound(t, c, n);
        return true, a + n;
      }
      assert t[n..] == [t[n]] + t[n + 1..];
    }
    assert t == t[n..];
    return false, a;
  }

  lemma {:induction false} LastIndexFound(t: Text, c: byte, i: nat)
    requires i < |t| && t[i] == c && c !in t[i + 1..]
    ensures LastIndex(t, c) == i && c in t
  {
    assert t == t[..i] + [c] + t[i + 1..];
    LastIndexIs(t[..i], c, t[i + 1..]);
  }

  /** Split host and port in place.  For an empty host the byte before it is looked at. */
  method SplitHostInPlace(raw: array<byte>, a: nat, ghost t: Text) returns (port: Option<nat>)
    requires Holds(raw[..], a, t) && 0 < a < raw.Length && raw[a - 1] != BRACKET
    modifies raw
    ensures Holds(raw[..], a, SplitHost(t).0) && Within(old(raw[..]), raw[..], a, a + |t|)
    ensures Placed(raw[..], port, SplitHost(t).1, a + |SplitHost(t).0| + 1, a + |t|)
  {
    hide Holds, LastIndex, Within;
    port := None;
    WithinSame(raw[..], a, a + |t|);
    var n := Strlen(raw, a, t);
    HoldsChar(raw[..], a, t, if n > 0 then n - 1 else 0);
    if raw[a + n - 1] != BRACKET {
      var found, i := Strrchr(raw, a, COLON, t);
      if found {
        HoldsCut(raw[..], a, t, i - a);
        raw[i] := 0;
        assert raw[..] == old(raw[..])[i := 0];
        port := Some(i + 1);
      }
    }
  }

  /** Split an authority into user, password, host and port in place; `mid` is where the host starts
      and `low` where the password would. */
  method SplitAuthorityInPlace(raw: array<byte>, a: nat, ghost t: Text)
    returns (user: Option<nat>, password: Option<nat>, host: nat, port: Option<nat>, ghost low: nat)
    requires Holds(raw[..], a, t) && 0 < a < raw.Length && raw[a - 1] != BRACKET
    modifies raw
    ensures Within(old(raw[..]), raw[..], a, a + |t|) && a <= low <= host
    ensures Placed(raw[..], user, SplitAuthority(t).0, a, low - 1)
    ensures Placed(raw[..], password, SplitAuthority(t).1, low, host - 1)
    ensures Holds(raw[..], host, SplitAuthority(t).2) && host + |SplitAuthority(t).2| <= a + |t|
    ensures Placed(raw[..], port, SplitAuthority(t).3, host + |SplitAuthority(t).2| + 1, a + |t|)
  {
    hide Holds, Within, Split, SplitHost;
    ghost var (login, rest) := Split(t, AT);
    SplitSizes(t, AT);
    SplitSizes(login, COLON);
    var at := Cut(raw, a, AT, t);
    ghost var m1 := raw[..];
    user, password, host, low := None, None, a, a;
    ghost var hp := t;
    if at.Some? {
      host, user := at.value, Some(a);
      hp := rest.value;
      low := a + |Split(login, COLON).0| + 1;
      password := Cut(raw, a, COLON, login);
      HoldsKept(m1, raw[..], a, a + |login|, host, hp);
      WithinTrans(old(raw[..]), m1, raw[..], a, a + |t|, a, a + |login|);
      ghost var (name, secret) := Split(login, COLON);
      if secret.Some? {
        HoldsChar(raw[..], password.value, secret.value, |secret.value|);
      } else {
        HoldsChar(raw[..], a, login, |login|);
      }
    } else {
      WithinLow(old(raw[..]), raw[..], a, a + |t|, a - 1);
    }
    ghost var m2 := raw[..];
    SplitHostSizes(hp);
    port := SplitHostInPlace(raw, host, hp);
    WithinTrans(old(raw[..]), m2, raw[..], a, a + |t|, host, host + |hp|);
    PlacedKept(m2, raw[..], host, host + |hp|, user, SplitAuthority(t).0, a, low - 1);
    PlacedKept(m2, raw[..], host, host + |hp|, password, SplitAuthority(t).1, low, host - 1);
  }

  lemma {:induction false} SplitSizes(t: Text, c: byte)
    ensures var (x, y) := Split(t, c); |x| <= |t| && (y.Some? ==> |x| + 1 + |y.value| == |t|) && (y.None? ==> x == t)
  {
    hide Index;
  }

  lemma {:induction false} SplitHostSizes(t: Text)
    ensures var (x, y) := SplitHost(t); |x| <= |t| && (y.Some? ==> |x| + 1 + |y.value| == |t|) && (y.None? ==> x == t)
  {
    hide LastIndex;
  }

  lemma {:induction false} WithinLow(m: seq<byte>, m': seq<byte>, lo: int, hi: int, i: nat)
    requires Within(m, m', lo, hi) && i < |m| && i < lo
    ensures |m'| == |m| && m'[i] == m[i]
  {
  }

  // ----- Parsing in place

  function FieldAt(i: nat): Field
    requires i < 9
  {
    if i == 0 then Scheme else if i == 1 then Opaque else if i == 2 then User else if i == 3 then Password
    else if i == 4 then Host else if i == 5 then Port else if i == 6 then Path else if i == 7 then Query else Fragment
  }

  ghost predicate Ascending(k: seq<int>) {
    forall i, j :: 0 <= i < j < |k| ==> k[i] <= k[j]
  }

  /** Field `i` lies between bounds `i` and `i + 1`. */
  ghost predicate Layout(m: seq<byte>, p: Fields<nat>, u: Uri, k: seq<int>) {
    |k| == 10 && Ascending(k)
    && forall i :: 0 <= i < 9 ==> Placed(m, p.Get(FieldAt(i)), u.Get(FieldAt(i)), k[i], k[i + 1] - 1)
  }

  /** The fields of a URI as pointers into a buffer. */
  ghost predicate Points(m: seq<byte>, p: Fields<nat>, u: Uri) {
    forall f: Field :: Points1(m, p.Get(f), u.Get(f))
  }

  ghost predicate Points1(m: seq<byte>, a: Option<nat>, t: Option<Text>) {
    (a.Some? <==> t.Some?) && (a.Some? ==> Holds(m, a.value, t.value))
  }

  lemma {:induction false} LayoutPoints(m: seq<byte>, p: Fields<nat>, u: Uri, k: seq<int>)
    requires Layout(m, p, u, k)
    ensures Points(m, p, u)
  {
    hide Holds;
    forall f: Field ensures Points1(m, p.Get(f), u.Get(f)) {
      var i: nat := match f case Scheme => 0 case Opaque => 1 case User => 2 case Password => 3 case Host => 4
                            case Port => 5 case Path => 6 case Query => 7 case Fragment => 8;
      assert FieldAt(i) == f;
      assert Placed(m, p.Get(FieldAt(i)), u.Get(FieldAt(i)), k[i], k[i + 1] - 1);
    }
  }

  /** The fields before index `n` unescaped. */
  ghost function DecodeSome(u: Uri, n: nat, i: nat): Option<Text>
    requires i < 9
  {
    if i < n then DecodeField(u.Get(FieldAt(i))) else u.Get(FieldAt(i))
  }

  /** Unescape all fields in place. */
  method DecodeFields(raw: array<byte>, p: Fields<nat>, ghost u: Uri, ghost k: seq<int>)
    requires Layout(raw[..], p, u, k)
    modifies raw
    ensures Points(raw[..], p, DecodeAll(u))
  {
    hide Holds, Decode, Within;
    for n := 0 to 9
      invariant forall i :: 0 <= i < 9 ==> Placed(raw[..], p.Get(FieldAt(i)), DecodeSome(u, n, i), k[i], k[i + 1] - 1)
    {
      var a := p.Get(FieldAt(n));
      ghost var t, before := u.Get(FieldAt(n)), raw[..];
      assert Placed(raw[..], a, DecodeSome(u, n, n), k[n], k[n + 1] - 1);
      if a.Some? {
        DecodeInPlace(raw, a.value, t.value);
        forall i | 0 <= i < 9
          ensures Placed(raw[..], p.Get(FieldAt(i)), DecodeSome(u, n + 1, i), k[i], k[i + 1] - 1)
        {
          if i != n {
            PlacedKept(before, raw[..], a.value, a.value + |t.value|, p.Get(FieldAt(i)), DecodeSome(u, n, i), k[i],
              k[i + 1] - 1);
          }
        }
      }
    }
    assert forall i :: 0 <= i < 9 ==> DecodeSome(u, 9, i) == DecodeAll(u).Get(FieldAt(i));
    LayoutPoints(raw[..], p, DecodeAll(u), k);
  }

  /** Move the authority down by one byte over the second slash and end it with a zero. */
  method Shuffle(raw: array<byte>, b: nat, i: nat, ghost t: Text)
    requires Holds(raw[..], b, t) && [SLASH, SLASH] <= t && i < |t[2..]|
    modifies raw
    ensures Holds(raw[..], b + 1, t[2..][..i]) && Holds(raw[..], b + 2 + i, t[2..][i..])
    ensures b < raw.Length && raw[b] == SLASH && Within(old(raw[..]), raw[..], b, b + |t|)
  {
    ghost var m := raw[..];
    for j := 0 to i
      invariant forall x :: b + 1 <= x < b + 1 + j ==> raw[x] == m[x + 1]
      invariant forall x :: 0 <= x < raw.Length && !(b + 1 <= x < b + 1 + j) ==> raw[x] == m[x]
    {
      raw[b + 1 + j] := raw[b + 2 + j];
    }
    raw[b + 1 + i] := 0;
    hide Holds, Within;
    Shuffled(m, raw[..], b, i, t);
  }

  lemma {:induction false} Shuffled(m: seq<byte>, m': seq<byte>, b: nat, i: nat, t: Text)
    requires Holds(m, b, t) && [SLASH, SLASH] <= t && i < |t[2..]| && |m'| == |m|
    requires forall x :: b + 1 <= x < b + 1 + i ==> m'[x] == m[x + 1]
    requires m'[b + 1 + i] == 0
    requires forall x :: 0 <= x < |m| && !(b + 1 <= x < b + 2 + i) ==> m'[x] == m[x]
    ensures Holds(m', b + 1, t[2..][..i]) && Holds(m', b + 2 + i, t[2..][i..])
    ensures m'[b] == SLASH && Within(m, m', b, b + |t|)
  {
    HoldsSuffix(m, b, t, 2);
    var r := t[2..];
    assert m'[b + 1..b + 1 + i] == m[b + 2..b + 2 + i] == m[b + 2..b + 2 + |r|][..i];
    HoldsSuffix(m, b + 2, r, i);
    HoldsKept(m, m', b + 1, b + 1 + i, b + 2 + i, r[i..]);
    HoldsChar(m, b, t, 0);
  }

  /** Find the authority and the path after two slashes. */
  method SplitNetPath(raw: array<byte>, b: nat, ghost t: Text) returns (authority: nat, path: Option<nat>)
    requires Holds(raw[..], b, t) && [SLASH, SLASH] <= t
    modifies raw
    ensures var i := Index(t[2..], SLASH);
            && Holds(raw[..], authority, t[2..][..i]) && b < authority < raw.Length && authority + i <= b + |t|
            && raw[authority - 1] == SLASH && Within(old(raw[..]), raw[..], b, b + |t|)
            && Placed(raw[..], path, if i < |t[2..]| then Some(t[2..][i..]) else None, authority + i + 1, b + |t|)
  {
    hide Holds, Index, Within;
    ghost var r := t[2..];
    HoldsSuffix(raw[..], b, t, 2);
    WithinSame(raw[..], b, b + |t|);
    authority, path := b + 2, None;
    var found, tmp := Strchr(raw, authority, SLASH, r);
    HoldsChar(raw[..], b, t, 1);
    if found {
      path := Some(tmp);
      Shuffle(raw, b, tmp - authority, t);
      authority := authority - 1;
    } else {
      assert r[..|r|] == r;
    }
  }

  lemma {:induction false} PlacedPoints(m: seq<byte>, a: Option<nat>, t: Option<Text>, lo: int, hi: int)
    requires Placed(m, a, t, lo, hi)
    ensures Points1(m, a, t)
  {
  }

  /** A URI without opaque part and authority. */
  lemma {:induction false} FewPoints(m: seq<byte>, scheme: Option<nat>, path: Option<nat>, query: Option<nat>,
                                     fragment: Option<nat>,
                                     sc: Option<Text>, pa: Option<Text>, qu: Option<Text>, fr: Option<Text>)
    requires Points1(m, scheme, sc) && Points1(m, path, pa) && Points1(m, query, qu) && Points1(m, fragment, fr)
    ensures Points(m, Uri(scheme, None, None, None, None, None, path, query, fragment),
                   Uri(sc, None, None, None, None, None, pa, qu, fr))
  {
    hide Holds;
  }

  lemma {:induction false} TenAscending(a: int, b: int, c: int, d: int, e: int, f: int, g: int, h: int, i: int, j: int)
    requires a <= b <= c <= d <= e <= f <= g <= h <= i <= j
    ensures Ascending([a, b, c, d, e, f, g, h, i, j])
  {
  }

  /** Fields that lie one after the other. */
  lemma {:induction false} LayoutOf(m: seq<byte>, p: Fields<nat>, u: Uri, b: nat, a: nat, low: nat, mid: nat, x: nat,
                                    y: nat, z: nat, w: nat, end: nat)
    requires b <= a <= low <= mid <= x <= y <= z <= w <= end
    requires Placed(m, p.scheme, u.scheme, 0, b - 1) && p.opaquePart.None? && u.opaquePart.None?
    requires Placed(m, p.user, u.user, a, low - 1) && Placed(m, p.password, u.password, low, mid - 1)
    requires Placed(m, p.host, u.host, mid, x - 1) && Placed(m, p.port, u.port, x, y - 1)
    requires Placed(m, p.path, u.path, y, z - 1) && Placed(m, p.query, u.query, z, w - 1)
    requires Placed(m, p.fragment, u.fragment, w, end - 1)
    ensures Layout(m, p, u, [0, b, a, low, mid, x, y, z, w, end])
  {
    assert Placed(m, p.opaquePart, u.opaquePart, b, a - 1);
    hide Placed, Ascending;
    TenAscending(0, b, a, low, mid, x, y, z, w, end);
    var k: seq<int> := [0, b, a, low, mid, x, y, z, w, end];
    forall i | 0 <= i < 9 ensures Placed(m, p.Get(FieldAt(i)), u.Get(FieldAt(i)), k[i], k[i + 1] - 1) {
    }
  }

  /** Parse an authority and a path in place, then unescape all fields. */
  method ParseAuthorityInPlace(raw: array<byte>, b: nat, scheme: Option<nat>, query: Option<nat>, fragment: Option<nat>,
                               ghost t: Text, ghost sc: Option<Text>, ghost qu: Option<Text>, ghost fr: Option<Text>,
                               ghost w: nat, ghost end: nat) returns (p: Fields<nat>)
    requires Holds(raw[..], b, t) && [SLASH, SLASH] <= t && b + |t| + 1 <= w <= end
    requires Placed(raw[..], scheme, sc, 0, b - 1) && Placed(raw[..], query, qu, b + |t| + 1, w - 1)
    requires Placed(raw[..], fragment, fr, w, end - 1)
    modifies raw
    ensures var i := Index(t[2..], SLASH);
            var (us, pw, ho, po) := SplitAuthority(t[2..][..i]);
            Points(raw[..], p, DecodeAll(Uri(sc, None, us, pw, Some(ho), po,
                                             if i < |t[2..]| then Some(t[2..][i..]) else None, qu, fr)))
  {
    hide Holds, Within, SplitAuthority, Index, DecodeAll, Points, Layout;
    ghost var i := Index(t[2..], SLASH);
    ghost var auth, pa := t[2..][..i], if i < |t[2..]| then Some(t[2..][i..]) else None;
    ghost var (us, pw, ho, po) := SplitAuthority(auth);
    ghost var m0 := raw[..];
    var authority, path := SplitNetPath(raw, b, t);
    ghost var m1 := raw[..];
    PlacedKept(m0, m1, b, b + |t|, scheme, sc, 0, b - 1);
    PlacedKept(m0, m1, b, b + |t|, query, qu, b + |t| + 1, w - 1);
    PlacedKept(m0, m1, b, b + |t|, fragment, fr, w, end - 1);
    var user, password, host, port;
    ghost var low;
    user, password, host, port, low := SplitAuthorityInPlace(raw, authority, auth);
    ghost var m2 := raw[..];
    PlacedKept(m1, m2, authority, authority + i, scheme, sc, 0, b - 1);
    PlacedKept(m1, m2, authority, authority + i, path, pa, authority + i + 1, b + |t|);
    PlacedKept(m1, m2, authority, authority + i, query, qu, b + |t| + 1, w - 1);
    PlacedKept(m1, m2, authority, authority + i, fragment, fr, w, end - 1);
    p := Uri(scheme, None, user, password, Some(host), port, path, query, fragment);
    ghost var u: Uri := Uri(sc, None, us, pw, Some(ho), po, pa, qu, fr);
    LayoutOf(m2, p, u, b, authority, low, host, host + |ho| + 1, authority + i + 1, b + |t| + 1, w, end);
    DecodeFields(raw, p, u, [0, b, authority, low, host, host + |ho| + 1, authority + i + 1, b + |t| + 1, w, end]);
  }

  /** Parse the text after the scheme in place. */
  method ParsePathInPlace(raw: array<byte>, b: nat, scheme: Option<nat>, fragment: Option<nat>,
                          ghost t: Text, ghost sc: Option<Text>, ghost fr: Option<Text>, ghost end: nat)
                            returns (p: Fields<nat>)
    requires Holds(raw[..], b, t) && Placed(raw[..], scheme, sc, 0, b - 1)
             && Placed(raw[..], fragment, fr, b + |t| + 1, end - 1)
    requires b + |t| < end
    modifies raw
    ensures Points(raw[..], p, ParsePath(sc, t, fr))
  {
    hide Holds, Within, Split, Placed, SplitAuthority, Index, DecodeAll, Points;
    ghost var m0 := raw[..];
    ghost var (path, qu) := Split(t, QUESTION);
    SplitSizes(t, QUESTION);
    var query := Cut(raw, b, QUESTION, t);
    PlacedKept(m0, raw[..], b, b + |t|, scheme, sc, 0, b - 1);
    PlacedKept(m0, raw[..], b, b + |t|, fragment, fr, b + |t| + 1, end - 1);
    PlacedPoints(raw[..], scheme, sc, 0, b - 1);
    PlacedPoints(raw[..], query, qu, b + |path| + 1, b + |t|);
    PlacedPoints(raw[..], fragment, fr, b + |t| + 1, end - 1);
    var slashes := StartsWithSlashes(raw, b, path);
    if raw[b] == 0 {
      p := Uri(scheme, None, None, None, None, None, None, query, fragment);
      FewPoints(raw[..], scheme, None, query, fragment, sc, None, qu, fr);
    } else if !slashes {
      p := Uri(scheme, None, None, None, None, None, Some(b), query, fragment);
      FewPoints(raw[..], scheme, Some(b), query, fragment, sc, Some(path), qu, fr);
    } else {
      p := ParseAuthorityInPlace(raw, b, scheme, query, fragment, path, sc, qu, fr, b + |t| + 1, end);
    }
  }

  method StartsWithSlashes(raw: array<byte>, b: nat, ghost t: Text) returns (r: bool)
    requires Holds(raw[..], b, t)
    ensures b < raw.Length && (raw[b] == 0 <==> t == [])
    ensures r <==> [SLASH, SLASH] <= t
  {
    hide Holds;
    HoldsChar(raw[..], b, t, 0);
    if t != [] {
      HoldsChar(raw[..], b, t, 1);
    }
    StartsWithTwo(t);
    r := raw[b] == SLASH && raw[b + 1] == SLASH;
  }

  /** Whether a parameter list starts at an offset. */
  method ParamsAt(raw: array<byte>, a: nat, ghost t: Text) returns (r: bool)
    requires Holds(raw[..], a, t)
    ensures r <==> PARAMS <= t
  {
    hide Holds;
    var k := 0;
    HoldsChar(raw[..], a, t, 0);
    while k < 8 && raw[a + k] == PARAMS[k]
      invariant k <= 8 && k <= |t| && a + |t| < raw.Length && (k < 8 ==> (raw[a + k] == if k < |t| then t[k] else 0))
      invariant t[..k] == PARAMS[..k]
    {
      HoldsChar(raw[..], a, t, k);
      assert t[..k + 1] == t[..k] + [t[k]] && PARAMS[..k + 1] == PARAMS[..k] + [PARAMS[k]];
      k := k + 1;
      HoldsChar(raw[..], a, t, k);
    }
    return k == 8;
  }

  /** Cut off a parameter list. */
  method CutParams(raw: array<byte>, ghost t: Text)
    requires Holds(raw[..], 0, t)
    modifies raw
    ensures Holds(raw[..], 0, WithoutParams(t)) && |WithoutParams(t)| <= |t|
  {
    hide Holds, WithoutParams;
    var i := 0;
    HoldsChar(raw[..], 0, t, 0);
    assert t[0..] == t && t[..0] + WithoutParams(t) == WithoutParams(t);
    while raw[i] != 0
      invariant i <= |t| < raw.Length && raw[..] == old(raw[..]) && (raw[i] == 0 <==> i == |t|)
      invariant WithoutParams(t) == t[..i] + WithoutParams(t[i..])
      decreases |t| - i
    {
      HoldsSuffix(raw[..], 0, t, i);
      var found := ParamsAt(raw, i, t[i..]);
      WithoutParamsStep(t, i);
      if found {
        HoldsCut(raw[..], 0, t, i);
        raw[i] := 0;
        assert raw[..] == old(raw[..])[i := 0];
        return;
      }
      i := i + 1;
      HoldsChar(raw[..], 0, t, i);
    }
    WithoutParamsEnd(t);
  }

  lemma {:induction false} WithoutParamsStep(t: Text, i: nat)
    requires i < |t|
    ensures PARAMS <= t[i..] ==> t[..i] + WithoutParams(t[i..]) == t[..i]
    ensures !(PARAMS <= t[i..]) ==> t[..i] + WithoutParams(t[i..]) == t[..i + 1] + WithoutParams(t[i + 1..])
  {
    assert t[i..][1..] == t[i + 1..];
    assert t[..i] + [t[i]] == t[..i + 1];
  }

  lemma {:induction false} WithoutParamsEnd(t: Text)
    ensures t[..|t|] + WithoutParams(t[|t|..]) == t
  {
  }

  /** A copy of a string. */
  method CopyString(s: array<byte>, ghost t: Text) returns (raw: array<byte>)
    requires Holds(s[..], 0, t)
    ensures fresh(raw) && Holds(raw[..], 0, t)
  {
    hide Holds;
    var n := Strlen(s, 0, t);
    assert |t| < s.Length by { HoldsChar(s[..], 0, t, 0); }
    raw := new byte[n + 1];
    for i := 0 to n + 1
      invariant fresh(raw) && forall x :: 0 <= x < i ==> raw[x] == s[x]
    {
      raw[i] := s[i];
    }
    Copied(s[..], raw[..], t);
  }

  lemma {:induction false} Copied(m: seq<byte>, m': seq<byte>, t: Text)
    requires Holds(m, 0, t) && |m'| == |t| + 1 <= |m| && forall i :: 0 <= i < |m'| ==> m'[i] == m[i]
    ensures Holds(m', 0, t)
  {
    assert m'[0..|t|] == m[0..|t|];
  }

  /** Parse a text: pointers into a copy of it to the fields that the text has. */
  method ParseUri(s: array<byte>, ghost t: Text) returns (raw: array<byte>, p: Fields<nat>)
    requires Holds(s[..], 0, t)
    ensures fresh(raw) && Points(raw[..], p, Parse(t))
  {
    hide Holds, Within, Split, Points, WithoutParams, ParsePath;
    raw := CopyString(s, t);
    CutParams(raw, t);
    ghost var t1 := WithoutParams(t);
    ghost var (body, fr) := Split(t1, HASH);
    SplitSizes(t1, HASH);
    var fragment := Cut(raw, 0, HASH, t1);
    ghost var m1 := raw[..];
    ghost var (sc, rest) := Split(body, COLON);
    SplitSizes(body, COLON);
    var tail := Cut(raw, 0, COLON, body);
    PlacedKept(m1, raw[..], 0, |body|, fragment, fr, |body| + 1, |t1|);
    if tail.None? {
      p := ParsePathInPlace(raw, 0, None, fragment, body, None, fr, |t1| + 1);
    } else {
      HoldsChar(raw[..], tail.value, rest.value, 0);
      if raw[tail.value] == SLASH {
        p := ParsePathInPlace(raw, tail.value, Some(0), fragment, rest.value, Some(sc), fr, |t1| + 1);
      } else {
        p := Uri(Some(0), tail, None, None, None, None, None, None, fragment);
        PlacedPoints(raw[..], fragment, fr, |body| + 1, |t1|);
        OpaquePoints(raw[..], 0, tail.value, fragment, sc, rest.value, fr);
      }
    }
  }

  lemma {:induction false} OpaquePoints(m: seq<byte>, scheme: nat, tail: nat, fragment: Option<nat>, sc: Text,
                                        ta: Text, fr: Option<Text>)
    requires Holds(m, scheme, sc) && Holds(m, tail, ta) && Points1(m, fragment, fr)
    ensures Points(m, Uri(Some(scheme), Some(tail), None, None, None, None, None, None, fragment),
                   Uri(Some(sc), Some(ta), None, None, None, None, None, None, fr))
  {
    hide Holds;
  }

  // ----- Printing into a buffer

  /** A buffer of `len` bytes holds as much of a text as fits with a zero at the end. */
  ghost predicate Printed(m: seq<byte>, len: nat, t: Text)
    requires len <= |m|
  {
    len > 0 ==> var n := Min(|t|, len - 1); m[..n] == t[..n] && m[n] == 0
  }

  /** Print at an offset that may be past the end of the buffer. */
  method Put(buf: array<byte>, len: nat, used: nat, t: Text, ghost done: Text) returns (used': nat)
    requires len <= buf.Length && used == |done| && Printed(buf[..], len, done)
    modifies buf
    ensures used' == |done + t| && Printed(buf[..], len, done + t)
    ensures forall x :: len <= x < buf.Length ==> buf[x] == old(buf[x])
  {
    var size: nat := if used < len then len - used else 0;
    for k := 0 to |t|
      invariant forall x :: 0 <= x < buf.Length && !(used <= x < used + k && x < len) ==> buf[x] == old(buf[x])
      invariant forall x :: used <= x < used + k && x < len ==> buf[x] == t[x - used]
    {
      if k < size {
        buf[used + k] := t[k];
      }
    }
    if size > 0 {
      buf[used + Min(size - 1, |t|)] := 0;
    }
    used' := used + |t|;
    if len > 0 {
      ghost var n := Min(used', len - 1);
      assert buf[n] == 0;
      assert forall x :: 0 <= x < n ==> buf[x] == (done + t)[x];
    }
  }

  /** Print an escaped field. */
  method EncodeInto(buf: array<byte>, len: nat, used: nat, t: Text, f: Field, ghost done: Text) returns (used': nat)
    requires len <= buf.Length && used == |done| && Printed(buf[..], len, done)
    modifies buf
    ensures used' == |done + Encode(t, f)| && Printed(buf[..], len, done + Encode(t, f))
    ensures forall x :: len <= x < buf.Length ==> buf[x] == old(buf[x])
  {
    hide Printed, Encode, EncodeChar;
    used' := used;
    assert t[..0] == [] && Encode([], f) == [] by { NothingEncoded(f); }
    assert done + [] == done;
    for i := 0 to |t|
      invariant used' == |done + Encode(t[..i], f)| && Printed(buf[..], len, done + Encode(t[..i], f))
      invariant forall x :: len <= x < buf.Length ==> buf[x] == old(buf[x])
    {
      used' := Put(buf, len, used', EncodeChar(t[i], f), done + Encode(t[..i], f));
      EncodeSnoc(t, i, f);
      assert done + Encode(t[..i], f) + EncodeChar(t[i], f) == done + Encode(t[..i + 1], f);
    }
    assert t[..|t|] == t;
  }

  lemma {:induction false} NothingEncoded(f: Field)
    ensures Encode([], f) == []
  {
  }

  lemma {:induction false} EncodeSnoc(t: Text, i: nat, f: Field)
    requires i < |t|
    ensures Encode(t[..i + 1], f) == Encode(t[..i], f) + EncodeChar(t[i], f)
  {
    assert t[..i + 1] == t[..i] + [t[i]];
    EncodeAppend(t[..i], [t[i]], f);
    assert [t[i]][1..] == [];
    assert Encode([t[i]], f) == EncodeChar(t[i], f) + [];
  }

  /** The text of the first `n` fields. */
  ghost function FormatTo(u: Uri, n: nat): Text
    requires n <= 9
  {
    if n == 0 then [] else FormatTo(u, n - 1) + FieldText(u, FieldAt(n - 1))
  }

  lemma {:induction false} FormatAll(u: Uri)
    ensures FormatTo(u, 9) == Format(u)
  {
    hide FieldText, FormatTo;
    FormatNone(u);
    FormatNext(u, 0);
    FormatNext(u, 1);
    FormatNext(u, 2);
    FormatNext(u, 3);
    FormatNext(u, 4);
    FormatNext(u, 5);
    FormatNext(u, 6);
    FormatNext(u, 7);
    FormatNext(u, 8);
    assert [] + FieldText(u, Scheme) == FieldText(u, Scheme);
    Regroup(FormatTo(u, 2), FieldText(u, User), FieldText(u, Password), FieldText(u, Host), FieldText(u, Port));
  }

  lemma {:induction false} Regroup(x: Text, a: Text, b: Text, c: Text, d: Text)
    ensures x + a + b + c + d == x + (a + b + c + d)
  {
  }

  /** Print a URI: whatever the size of the buffer, the result is the length of the whole text, and
      the buffer holds as much of it as fits. */
  method FormatUri(u: Uri, buf: array<byte>, len: nat) returns (used: nat)
    requires len <= buf.Length
    modifies buf
    ensures used == |Format(u)| && Printed(buf[..], len, Format(u))
    ensures forall x :: len <= x < buf.Length ==> buf[x] == old(buf[x])
  {
    hide Printed, Format, Encode, FormatTo, FieldText, Prefix, Postfix;
    if len > 0 {
      buf[0] := 0;
    }
    assert FormatTo(u, 0) == [] by { FormatNone(u); }
    assert Printed(buf[..], len, []) by { PrintedNone(buf[..], len); }
    used := 0;
    for n := 0 to 9
      invariant used == |FormatTo(u, n)| && Printed(buf[..], len, FormatTo(u, n))
      invariant forall x :: len <= x < buf.Length ==> buf[x] == old(buf[x])
    {
      used := FormatField(u, FieldAt(n), buf, len, used, FormatTo(u, n));
      FormatNext(u, n);
    }
    FormatAll(u);
  }

  lemma {:induction false} FormatNone(u: Uri)
    ensures FormatTo(u, 0) == []
  {
  }

  lemma {:induction false} FormatNext(u: Uri, n: nat)
    requires n < 9
    ensures FormatTo(u, n + 1) == FormatTo(u, n) + FieldText(u, FieldAt(n))
  {
  }

  lemma {:induction false} PrintedNone(m: seq<byte>, len: nat)
    requires len <= |m| && (len > 0 ==> m[0] == 0)
    ensures Printed(m, len, [])
  {
  }

  method FormatField(u: Uri, f: Field, buf: array<byte>, len: nat, used: nat, ghost done: Text) returns (used': nat)
    requires len <= buf.Length && used == |done| && Printed(buf[..], len, done)
    modifies buf
    ensures used' == |done + FieldText(u, f)| && Printed(buf[..], len, done + FieldText(u, f))
    ensures forall x :: len <= x < buf.Length ==> buf[x] == old(buf[x])
  {
    hide Printed, Encode, Prefix, Postfix;
    used' := used;
    if u.Get(f).None? {
      assert done + [] == done;
      return;
    }
    ghost var e := Encode(u.Get(f).value, f);
    used' := Put(buf, len, used', Prefix(u, f), done);
    used' := EncodeInto(buf, len, used', u.Get(f).value, f, done + Prefix(u, f));
    used' := Put(buf, len, used', Postfix(u, f), done + Prefix(u, f) + e);
    assert done + Prefix(u, f) + e + Postfix(u, f) == done + (Prefix(u, f) + e + Postfix(u, f));
  }

  /** Print into a buffer of just the right size. */
  method FormatUriAlloc(u: Uri) returns (s: array<byte>)
    requires Strings(u)
    ensures fresh(s) && Holds(s[..], 0, Format(u))
  {
    hide Format;
    var none := new byte[0];
    var len := FormatUri(u, none, 0);
    s := new byte[len + 1];
    var used := FormatUri(u, s, len + 1);
    FormatString(u);
  }

  lemma {:induction false} FormatString(u: Uri)
    requires Strings(u)
    ensures IsString(Format(u))
  {
    FieldString(u, Scheme);
    FieldString(u, Opaque);
    FieldString(u, User);
    FieldString(u, Password);
    FieldString(u, Host);
    FieldString(u, Port);
    FieldString(u, Path);
    FieldString(u, Query);
    FieldString(u, Fragment);
    hide FieldText;
  }

  lemma {:induction false} FieldString(u: Uri, f: Field)
    requires Strings(u)
    ensures 0 !in FieldText(u, f)
  {
    hide Encode;
    if u.Get(f).Some? {
      assert IsString(u.Get(f).value);
      EncodeAvoids(u.Get(f).value, f);
    }
  }

  lemma {:induction false} HoldsUnique(m: seq<byte>, a: nat, t: Text, t': Text)
    requires Holds(m, a, t) && Holds(m, a, t')
    ensures t == t'
  {
    assert |t| <= |t'| by { HoldsChar(m, a, t, if |t'| <= |t| then |t'| else 0); }
    assert |t'| <= |t| by { HoldsChar(m, a, t', if |t| <= |t'| then |t| else 0); }
  }

  lemma {:induction false} PointsUnique(m: seq<byte>, p: Fields<nat>, u: Uri, u': Uri)
    requires Points(m, p, u) && Points(m, p, u')
    ensures u == u'
  {
    hide Holds;
    forall f: Field ensures u.Get(f) == u'.Get(f) {
      assert Points1(m, p.Get(f), u.Get(f)) && Points1(m, p.Get(f), u'.Get(f));
      if u.Get(f).Some? {
        HoldsUnique(m, p.Get(f).value, u.Get(f).value, u'.Get(f).value);
      }
    }
    SameFields(u, u');
  }

  lemma {:induction false} SameFields(u: Uri, u': Uri)
    requires forall f: Field :: u.Get(f) == u'.Get(f)
    ensures u == u'
  {
    assert u.Get(Scheme) == u'.Get(Scheme) && u.Get(Opaque) == u'.Get(Opaque) && u.Get(User) == u'.Get(User)
           && u.Get(Password) == u'.Get(Password) && u.Get(Host) == u'.Get(Host) && u.Get(Port) == u'.Get(Port)
           && u.Get(Path) == u'.Get(Path) && u.Get(Query) == u'.Get(Query) && u.Get(Fragment) == u'.Get(Fragment);
  }

  /** Printing a URI and parsing the result gives pointers to its own fields exactly if it is
      reparseable. */
  method Reparse(u: Uri) returns (raw: array<byte>, p: Fields<nat>)
    requires Strings(u)
    ensures Points(raw[..], p, Parse(Format(u)))
    ensures Points(raw[..], p, u) <==> Reparseable(u)
  {
    hide Holds, Format, Parse, Points, Reparseable, Strings;
    var s := FormatUriAlloc(u);
    raw, p := ParseUri(s, Format(u));
    RoundTrip(u);
    if Points(raw[..], p, u) {
      PointsUnique(raw[..], p, u, Parse(Format(u)));
    }
  }
}
