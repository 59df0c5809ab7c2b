/** Which URIs are read back by the parser from the text that the printer writes for them. */
module UriRoundTrip {
  import opened Bits
  import opened Uri

  // ----- One field

  /** A field value is a string: it holds no zero. */
  predicate IsString(t: Text) {
    0 !in t
  }

  predicate Strings(u: Uri) {
    forall f: Field :: u.Get(f).Some? ==> IsString(u.Get(f).value)
  }

  /** Seven-bit characters only. */
  predicate SevenBit(t: Text) {
    forall i :: 0 <= i < |t| ==> t[i] < 128
  }

  /** Nothing in a text needs escaping. */
  predicate Plain(t: Text, f: Field) {
    forall i :: 0 <= i < |t| ==> !Escaped(t[i], f)
  }

  /** What printing and reading a character makes of it. */
  function MangleChar(c: byte): Text {
    if c < 128 then [c] else [255, 70, 70, 70, 70, Hex(c / 16), Hex(c % 16)]
  }

  function Mangle(t: Text): Text {
    if t == [] then [] else MangleChar(t[0]) + Mangle(t[1..])
  }

  lemma {:induction false} NumberOfHex(a: nat, b: nat)
    requires a < 16 && b < 16
    ensures Number([Hex(a), Hex(b)]) == (16 * a + b, 2)
  {
    var t := [Hex(a), Hex(b)];
    assert Digit(Hex(a)) == a && Digit(Hex(b)) == b;
    assert Spaces(t) == 0 && t[0..] == t && t[1..] == [Hex(b)] && [Hex(b)][1..] == [];
    assert Value([], 16 * a + b) == 16 * a + b;
    assert Value([Hex(b)], a) == Value([Hex(b)][1..], 16 * a + b);
    assert Value(t, 0) == Value(t[1..], a);
    assert Digits([Hex(b)]) == 1;
  }

  lemma {:induction false} DecodePlain(c: byte, rest: Text)
    requires c != PERCENT && c != 0
    ensures Decode([c] + rest) == [c] + Decode(rest)
  {
    assert ([c] + rest)[1..] == rest;
  }

  lemma {:induction false} DecodeHex(a: nat, b: nat, rest: Text)
    requires a < 16 && b < 16 && (a, b) != (0, 0)
    ensures Decode([PERCENT, Hex(a), Hex(b)] + rest) == [16 * a + b] + Decode(rest)
  {
    var t := [PERCENT, Hex(a), Hex(b)] + rest;
    NumberOfHex(a, b);
    assert t[1..3] == [Hex(a), Hex(b)];
    assert DecodeChar(t) == (16 * a + b, 3);
    assert t[3..] == rest;
  }

  lemma {:induction false} DecodeEncodedChar(c: byte, f: Field, rest: Text)
    requires c != 0
    ensures Decode(EncodeChar(c, f) + rest) == MangleChar(c) + Decode(rest)
  {
    hide Decode, Hex, Significant;
    if !Escaped(c, f) {
      DecodePlain(c, rest);
    } else if c < 128 {
      DecodeHex(c / 16, c % 16, rest);
      assert [PERCENT] + [] + [Hex(c / 16), Hex(c % 16)] == [PERCENT, Hex(c / 16), Hex(c % 16)];
    } else {
      DecodeHigh([Hex(c / 16), Hex(c % 16)], rest);
    }
  }

  lemma {:induction false} DecodeHigh(t: Text, rest: Text)
    requires |t| == 2 && t[0] in HEX && t[1] in HEX
    ensures Decode([PERCENT] + [70, 70, 70, 70, 70, 70] + t + rest) == [255, 70, 70, 70, 70, t[0], t[1]] + Decode(rest)
  {
    hide Decode, Hex;
    var t4: Text := [70, 70, 70, 70] + t;
    HexF();
    assert [PERCENT] + [70, 70, 70, 70, 70, 70] + t + rest == [PERCENT, Hex(15), Hex(15)] + (t4 + rest);
    DecodeHex(15, 15, t4 + rest);
    DecodePlains(t4, rest);
    assert [255, 70, 70, 70, 70, t[0], t[1]] + Decode(rest) == [255] + (t4 + Decode(rest));
  }

  lemma {:induction false} HexF()
    ensures Hex(15) == 70
  {
  }

  lemma {:induction false} DecodePlains(t: Text, rest: Text)
    requires forall i :: 0 <= i < |t| ==> t[i] in HEX
    ensures Decode(t + rest) == t + Decode(rest)
  {
    hide Decode;
    if t == [] {
      assert t + rest == rest && t + Decode(rest) == Decode(rest);
    } else {
      assert t + rest == [t[0]] + (t[1..] + rest);
      assert t[0] in HEX;
      DecodePlain(t[0], t[1..] + rest);
      DecodePlains(t[1..], rest);
      assert [t[0]] + (t[1..] + Decode(rest)) == t + Decode(rest);
    }
  }

  /** Reading a printed field gives the field with its eight-bit characters mangled. */
  lemma {:induction false} DecodeEncode(t: Text, f: Field)
    requires IsString(t)
    ensures Decode(Encode(t, f)) == Mangle(t)
  {
    hide EncodeChar, MangleChar;
    if t != [] {
      DecodeEncodedChar(t[0], f, Encode(t[1..], f));
      DecodeEncode(t[1..], f);
    }
  }

  lemma {:induction false} MangleLonger(t: Text)
    ensures |Mangle(t)| >= |t| && (|Mangle(t)| == |t| ==> SevenBit(t))
  {
    if t != [] {
      MangleLonger(t[1..]);
      assert SevenBit(t[1..]) && t[0] < 128 ==> SevenBit(t) by { SevenBitCons(t); }
    }
  }

  lemma {:induction false} SevenBitCons(t: Text)
    requires t != []
    ensures SevenBit(t) <==> t[0] < 128 && SevenBit(t[1..])
  {
    if t[0] < 128 && SevenBit(t[1..]) {
      forall i | 0 <= i < |t| ensures t[i] < 128 {
        assert i > 0 ==> t[i] == t[1..][i - 1];
      }
    }
  }

  /** Exactly the seven-bit fields survive. */
  lemma {:induction false} MangleIdentity(t: Text)
    ensures Mangle(t) == t <==> SevenBit(t)
  {
    MangleLonger(t);
    if SevenBit(t) && t != [] {
      MangleIdentity(t[1..]);
      assert t == [t[0]] + t[1..];
    }
  }

  // ----- What an escaped field consists of

  lemma {:induction false} EncodeAppend(a: Text, b: Text, f: Field)
    ensures Encode(a + b, f) == Encode(a, f) + Encode(b, f)
  {
    hide EncodeChar;
    if a == [] {
      assert a + b == b;
    } else {
      assert (a + b)[1..] == a[1..] + b;
      EncodeAppend(a[1..], b, f);
    }
  }

  /** No significant character is left in an escaped field, and no zero. */
  lemma {:induction false} EncodeAvoids(t: Text, f: Field)
    requires IsString(t)
    ensures forall i :: 0 <= i < |Encode(t, f)| ==> Encode(t, f)[i] !in Significant(f) && Encode(t, f)[i] != 0
  {
    if t != [] {
      CharAvoids(t[0], f);
      EncodeAvoids(t[1..], f);
    }
  }

  lemma {:induction false} CharAvoids(c: byte, f: Field)
    requires c != 0
    ensures forall i :: 0 <= i < |EncodeChar(c, f)| ==>
              EncodeChar(c, f)[i] !in Significant(f) && EncodeChar(c, f)[i] != 0
  {
    if Escaped(c, f) {
      var t := EncodeChar(c, f);
      forall i | 0 <= i < |t| ensures t[i] == PERCENT || t[i] in HEX {
      }
    }
  }

  lemma {:induction false} EncodeLonger(t: Text, f: Field)
    ensures |Encode(t, f)| >= |t| && (|Encode(t, f)| == |t| ==> Plain(t, f))
  {
    if t != [] {
      EncodeLonger(t[1..], f);
      PlainCons(t, f);
    }
  }

  lemma {:induction false} PlainCons(t: Text, f: Field)
    requires t != []
    ensures Plain(t, f) <==> !Escaped(t[0], f) && Plain(t[1..], f)
  {
    if !Escaped(t[0], f) && Plain(t[1..], f) {
      forall i | 0 <= i < |t| ensures !Escaped(t[i], f) {
        assert i > 0 ==> t[i] == t[1..][i - 1];
      }
    }
  }

  /** Escaping leaves exactly the plain fields alone. */
  lemma {:induction false} EncodeIdentity(t: Text, f: Field)
    ensures Encode(t, f) == t <==> Plain(t, f)
  {
    EncodeLonger(t, f);
    if Plain(t, f) && t != [] {
      PlainCons(t, f);
      EncodeIdentity(t[1..], f);
      assert t == [t[0]] + t[1..];
    }
  }

  // ----- The theorem

  ghost predicate PlainField(u: Uri, f: Field) {
    u.Get(f).Some? ==> Plain(u.Get(f).value, f)
  }

  ghost predicate SevenBitField(u: Uri, f: Field) {
    u.Get(f).Some? ==> SevenBit(u.Get(f).value)
  }

  /** A path is absent or starts with a slash. */
  predicate AbsolutePath(path: Option<Text>) {
    path.Some? ==> path.value != [] && path.value[0] == SLASH
  }

  predicate EndsInBracket(t: Text) {
    t != [] && t[|t| - 1] == BRACKET
  }

  /** Host and port can be told apart: a port does not end in a bracket, and a host without a port
      has no colon unless it ends in a bracket. */
  predicate HostAndPort(host: Text, port: Option<Text>) {
    if port.Some? then !EndsInBracket(port.value) else COLON !in host || EndsInBracket(host)
  }

  /** Which URIs the parser reads back from their text:
      with a scheme and no opaque part, those with a host, with a password only beside a user, with
      a path that is absent or absolute, with host and port that can be told apart, and with seven-bit
      characters only;
      with an opaque part, those with a scheme and at most a fragment besides, none of which needs
      escaping;
      with neither, those that have only an absolute path that does not start with two slashes, a
      query and a fragment, each of which may be absent, none of which needs escaping. */
  ghost predicate Reparseable(u: Uri) {
    if u.scheme.Some? && u.opaquePart.None? then
      && u.host.Some? && (u.password.Some? ==> u.user.Some?) && AbsolutePath(u.path)
      && HostAndPort(u.host.value, u.port) && forall f: Field :: SevenBitField(u, f)
    else if u.scheme.Some? then
      && u.user.None? && u.password.None? && u.host.None? && u.port.None? && u.path.None? && u.query.None?
      && PlainField(u, Scheme) && PlainField(u, Opaque) && PlainField(u, Fragment)
    else
      && u.opaquePart.None? && u.user.None? && u.password.None? && u.host.None? && u.port.None?
      && AbsolutePath(u.path) && (u.path.Some? ==> !([SLASH, SLASH] <= u.path.value))
      && PlainField(u, Path) && PlainField(u, Query) && PlainField(u, Fragment)
  }

  // ----- Splitting

  lemma {:induction false} SplitFound(x: Text, c: byte, y: Text)
    requires c !in x
    ensures Split(x + [c] + y, c) == (x, Some(y))
  {
    var t := x + [c] + y;
    var i := Index(t, c);
    assert forall k :: 0 <= k < |x| ==> t[k] == x[k];
    assert forall k :: 0 <= k < i ==> t[..i][k] == t[k];
    assert t[|x|] == c;
    assert t[..i] == x && t[i + 1..] == y;
  }

  /** A text followed by a separator and another text, or by nothing. */
  function Joined(x: Text, c: byte, y: Option<Text>): Text {
    if y.None? then x else x + [c] + y.value
  }

  lemma {:induction false} SplitJoined(x: Text, c: byte, y: Option<Text>)
    requires c !in x
    ensures Split(Joined(x, c, y), c) == (x, y)
  {
    if y.Some? {
      SplitFound(x, c, y.value);
    }
  }

  /** A field as it is printed, without prefix. */
  function Encoded(u: Uri, f: Field): Option<Text> {
    if u.Get(f).None? then None else Some(Encode(u.Get(f).value, f))
  }

  lemma {:induction false} EncodedAvoids(u: Uri, f: Field, c: byte)
    requires Strings(u) && c in Significant(f)
    ensures u.Get(f).Some? ==> c !in Encode(u.Get(f).value, f)
  {
    hide Encode, Significant;
    if u.Get(f).Some? {
      assert IsString(u.Get(f).value);
      EncodeAvoids(u.Get(f).value, f);
    }
  }

  // ----- The fragment

  predicate DoubleHash(t: Text, i: nat) {
    i + 1 < |t| && t[i] == HASH && t[i + 1] == HASH
  }

  /** Two hash signs do not follow each other. */
  predicate NoParams(t: Text) {
    forall i :: 0 <= i < |t| ==> !DoubleHash(t, i)
  }

  lemma {:induction false} ParamsStart(t: Text)
    ensures PARAMS <= t ==> DoubleHash(t, 0)
  {
  }

  lemma {:induction false} WithoutParamsSame(t: Text)
    requires NoParams(t)
    ensures WithoutParams(t) == t
  {
    if t != [] {
      ParamsStart(t);
      forall i | 0 <= i < |t[1..]| ensures !DoubleHash(t[1..], i) {
        assert !DoubleHash(t, i + 1);
      }
      WithoutParamsSame(t[1..]);
    }
  }

  lemma {:induction false} BodyAvoidsHash(u: Uri)
    requires Strings(u)
    ensures HASH !in BodyText(u)
  {
    hide Encode;
    FieldAvoids(u, Scheme, HASH);
    FieldAvoids(u, Opaque, HASH);
    FieldAvoids(u, User, HASH);
    FieldAvoids(u, Password, HASH);
    FieldAvoids(u, Host, HASH);
    FieldAvoids(u, Port, HASH);
    FieldAvoids(u, Path, HASH);
    FieldAvoids(u, Query, HASH);
    hide FieldText;
  }

  lemma {:induction false} FieldAvoids(u: Uri, f: Field, c: byte)
    requires Strings(u) && c in Significant(f) && c !in Prefix(u, f) && c !in Postfix(u, f)
    ensures c !in FieldText(u, f)
  {
    hide Encode, Significant, Prefix, Postfix;
    EncodedAvoids(u, f, c);
  }

  /** Parsing the text of a URI splits off the fragment first. */
  lemma {:induction false} ParseFormat(u: Uri)
    requires Strings(u)
    ensures Parse(Format(u)) == ParseBody(BodyText(u), Encoded(u, Fragment))
  {
    hide Encode, BodyText, ParseBody;
    BodyAvoidsHash(u);
    EncodedAvoids(u, Fragment, HASH);
    var b, f := BodyText(u), Encoded(u, Fragment);
    assert Format(u) == Joined(b, HASH, f);
    forall i | 0 <= i < |Format(u)| ensures !DoubleHash(Format(u), i) {
      assert i < |b| ==> Format(u)[i] == b[i];
      assert |b| <= i < |Format(u)| - 1 ==> Format(u)[i + 1] == f.value[i - |b|];
    }
    WithoutParamsSame(Format(u));
    SplitJoined(b, HASH, f);
  }

  // ----- Without a scheme or with an opaque part

  lemma {:induction false} EncodedSame(u: Uri, f: Field)
    ensures Encoded(u, f) == u.Get(f) <==> PlainField(u, f)
  {
    if u.Get(f).Some? {
      EncodeIdentity(u.Get(f).value, f);
    }
  }

  lemma {:induction false} PathHasNoOpaque(scheme: Option<Text>, t: Text, fragment: Option<Text>)
    ensures ParsePath(scheme, t, fragment).opaquePart == None
  {
    hide Decode, SplitAuthority;
  }

  lemma {:induction false} OpaqueReparsed(u: Uri)
    requires Strings(u) && u.scheme.Some? && u.opaquePart.Some?
    ensures Parse(Format(u)) == u <==> Reparseable(u)
  {
    hide Encode, Parse, Format, Plain, SevenBitField, ParsePath, Split, BodyText, AuthorityText, FieldText, PlainField;
    ParseFormat(u);
    var s, o := Encode(u.scheme.value, Scheme), Encode(u.opaquePart.value, Opaque);
    var x := AuthorityText(u) + FieldText(u, Path) + FieldText(u, Query);
    OpaqueBody(u);
    EncodedAvoids(u, Scheme, COLON);
    SplitFound(s, COLON, o + x);
    PathHasNoOpaque(Some(s), o + x, Encoded(u, Fragment));
    EncodedSame(u, Scheme);
    EncodedSame(u, Opaque);
    EncodedSame(u, Fragment);
    EncodedAvoids(u, Opaque, SLASH);
    NoAuthority(u);
    if u.user.None? && u.password.None? && u.host.None? && u.port.None? && u.path.None? && u.query.None? {
      NoField(u, Path);
      NoField(u, Query);
      assert o + x == o;
    }
  }

  lemma {:induction false} OpaqueBody(u: Uri)
    requires u.scheme.Some? && u.opaquePart.Some?
    ensures BodyText(u) == Encode(u.scheme.value, Scheme) + [COLON]
                           + (Encode(u.opaquePart.value,
                             Opaque) + (AuthorityText(u) + FieldText(u, Path) + FieldText(u, Query)))
  {
    hide Encode, AuthorityText;
  }

  /** A character that is no part of an escape is in an escaped text only if it is in the text. */
  lemma {:induction false} EncodeNew(t: Text, f: Field, c: byte)
    requires c != PERCENT && c !in HEX && c !in t
    ensures c !in Encode(t, f)
  {
    if t != [] {
      EncodeNew(t[1..], f, c);
      assert t[0] != c;
    }
  }

  lemma {:induction false} EncodeFirst(t: Text, f: Field)
    ensures Encode(t, f) == [] <==> t == []
    ensures t != [] ==> Encode(t, f)[0] == if Escaped(t[0], f) then PERCENT else t[0]
  {
  }

  /** A slash in a path is printed as it is. */
  lemma {:induction false} EncodeAtSlash(t: Text)
    ensures var i := Index(Encode(t, Path), SLASH);
            Encode(t, Path)[i..] == Encode(t[Index(t, SLASH)..], Path)
    ensures Encode(t[Index(t, SLASH)..], Path) == [] || Encode(t[Index(t, SLASH)..], Path)[0] == SLASH
  {
    hide Index, Encode;
    var k := Index(t, SLASH);
    var x, y := Encode(t[..k], Path), Encode(t[k..], Path);
    assert t == t[..k] + t[k..];
    EncodeAppend(t[..k], t[k..], Path);
    EncodeNew(t[..k], Path, SLASH);
    EncodeFirst(t[k..], Path);
    IndexIs(x, y, SLASH);
  }

  lemma {:induction false} IndexIs(x: Text, y: Text, c: byte)
    requires c !in x && (y == [] || y[0] == c)
    ensures Index(x + y, c) == |x| && (x + y)[..|x|] == x && (x + y)[|x|..] == y
  {
    hide Index;
    var t := x + y;
    var i := Index(t, c);
    assert forall k :: 0 <= k < |x| ==> t[k] == x[k];
    assert forall k :: 0 <= k < i ==> t[..i][k] == t[k];
    assert y != [] ==> t[|x|] == c;
  }

  /** The number of slashes in a text. */
  function Slashes(t: Text): nat {
    if t == [] then 0 else (if t[0] == SLASH then 1 else 0) + Slashes(t[1..])
  }

  lemma {:induction false} SlashesAppend(a: Text, b: Text)
    ensures Slashes(a + b) == Slashes(a) + Slashes(b)
  {
    if a == [] {
      assert a + b == b;
    } else {
      assert (a + b)[1..] == a[1..] + b;
      SlashesAppend(a[1..], b);
    }
  }

  lemma {:induction false} MangleSlashes(t: Text)
    ensures Slashes(Mangle(t)) == Slashes(t)
  {
    if t != [] {
      SlashesAppend(MangleChar(t[0]), Mangle(t[1..]));
      MangleSlashes(t[1..]);
      CharSlashes(t[0]);
    }
  }

  lemma {:induction false} CharSlashes(c: byte)
    ensures Slashes(MangleChar(c)) == if c == SLASH then 1 else 0
  {
    NoSlashes(MangleChar(c));
    assert c < 128 ==> [c][1..] == [];
  }

  lemma {:induction false} NoSlashes(t: Text)
    ensures SLASH !in t ==> Slashes(t) == 0
  {
    if t != [] {
      NoSlashes(t[1..]);
    }
  }

  /** A path that starts with two slashes is read as an authority, and what is read as the path has
      fewer slashes. */
  lemma {:induction false} NetPathShorter(p: Text)
    requires IsString(p) && [SLASH, SLASH] <= p
    ensures [SLASH, SLASH] <= Encode(p, Path)
    ensures var e := Encode(p, Path)[2..]; Decode(e[Index(e, SLASH)..]) != p
  {
    hide Index, Decode, Encode, Slashes, Mangle;
    var r := p[2..];
    assert p == [SLASH, SLASH] + r;
    EncodeAppend([SLASH, SLASH], r, Path);
    SlashesEncoded();
    var e := Encode(p, Path)[2..];
    assert e == Encode(r, Path);
    EncodeAtSlash(r);
    var k := Index(r, SLASH);
    DecodeEncode(r[k..], Path);
    MangleSlashes(r[k..]);
    assert r == r[..k] + r[k..];
    SlashesAppend(r[..k], r[k..]);
    SlashesAppend([SLASH, SLASH], r);
    TwoSlashes();
  }

  lemma {:induction false} SlashesEncoded()
    ensures Encode([SLASH, SLASH], Path) == [SLASH, SLASH]
  {
    EncodeIdentity([SLASH, SLASH], Path);
  }

  lemma {:induction false} TwoSlashes()
    ensures Slashes([SLASH, SLASH]) == 2
  {
    assert [SLASH, SLASH][1..] == [SLASH];
    assert Slashes([SLASH]) == 1;
  }

  /** A text with a colon is read as one with a scheme. */
  lemma {:induction false} ColonMeansScheme(t: Text, fragment: Option<Text>)
    ensures COLON in t ==> ParseBody(t, fragment).scheme.Some?
  {
    hide Decode, SplitAuthority;
  }

  /** The part before the query holds no colon unless the authority does. */
  lemma {:induction false} BareSplits(u: Uri)
    requires Strings(u) && u.scheme.None? && u.opaquePart.None? && COLON !in AuthorityText(u)
    ensures ParseBody(BodyText(u), Encoded(u, Fragment)) == ParsePath(None, BodyText(u), Encoded(u, Fragment))
    ensures Split(BodyText(u), QUESTION) == (AuthorityText(u) + FieldText(u, Path), Encoded(u, Query))
  {
    hide Encode, ParsePath, Split, AuthorityText, FieldText;
    assert COLON !in BodyText(u) by {
      FieldAvoids(u, Path, COLON);
      FieldAvoids(u, Query, COLON);
      NoField(u, Scheme);
      NoField(u, Opaque);
    }
    SplitJoined(BodyText(u), COLON, None);
    PathPartAvoids(u);
    BareBody(u);
    SplitJoined(AuthorityText(u) + FieldText(u, Path), QUESTION, Encoded(u, Query));
  }

  lemma {:induction false} NoField(u: Uri, f: Field)
    requires u.Get(f).None?
    ensures FieldText(u, f) == []
  {
  }

  lemma {:induction false} PathPartAvoids(u: Uri)
    requires Strings(u)
    ensures QUESTION !in AuthorityText(u) + FieldText(u, Path) && SLASH !in AuthorityText(u)
  {
    FieldAvoids(u, User, QUESTION);
    FieldAvoids(u, Password, QUESTION);
    FieldAvoids(u, Host, QUESTION);
    FieldAvoids(u, Port, QUESTION);
    FieldAvoids(u, Path, QUESTION);
    FieldAvoids(u, User, SLASH);
    FieldAvoids(u, Password, SLASH);
    FieldAvoids(u, Host, SLASH);
    FieldAvoids(u, Port, SLASH);
    hide FieldText;
  }

  lemma {:induction false} BareBody(u: Uri)
    requires u.scheme.None? && u.opaquePart.None?
    ensures BodyText(u) == Joined(AuthorityText(u) + FieldText(u, Path), QUESTION, Encoded(u, Query))
  {
    hide Encode, AuthorityText;
  }

  lemma {:induction false} StartsWithTwo(t: Text)
    ensures [SLASH, SLASH] <= t <==> |t| >= 2 && t[0] == SLASH && t[1] == SLASH
  {
  }

  /** The printed path. */
  lemma {:induction false} PathText(u: Uri)
    requires Strings(u) && u.path.Some?
    ensures var p, t := u.path.value, FieldText(u, Path);
            && t != [] && t[0] == SLASH
            && (AbsolutePath(u.path) ==> t == Encode(p, Path) && ([SLASH, SLASH] <= t <==> [SLASH, SLASH] <= p))
            && (!AbsolutePath(u.path) ==> t == [SLASH] + Encode(p, Path) && |t| > |p| && !([SLASH, SLASH] <= t))
  {
    hide Encode;
    var p := u.path.value;
    EncodeFirst(p, Path);
    EncodeLonger(p, Path);
    StartsWithTwo(FieldText(u, Path));
    StartsWithTwo(p);
    if AbsolutePath(u.path) {
      assert p == [SLASH] + p[1..];
      EncodeAppend([SLASH], p[1..], Path);
      EncodeIdentity([SLASH], Path);
      EncodeFirst(p[1..], Path);
    }
  }

  lemma {:induction false} BareReparsed(u: Uri)
    requires Strings(u) && u.scheme.None? && u.opaquePart.None?
    ensures Parse(Format(u)) == u <==> Reparseable(u)
  {
    hide Encode, Parse, Format, Plain, SevenBitField, ParsePath, Split, ParseBody, BodyText, FieldText, PlainField,
         AbsolutePath;
    ParseFormat(u);
    NoAuthority(u);
    if COLON in AuthorityText(u) {
      assert COLON in BodyText(u) by { BareBody(u); }
      ColonMeansScheme(BodyText(u), Encoded(u, Fragment));
    } else {
      BareSplits(u);
      BarePath(u);
    }
  }

  lemma {:induction false} NoAuthority(u: Uri)
    ensures u.user.None? && u.password.None? && u.host.None? && u.port.None? ==> AuthorityText(u) == []
    ensures COLON !in AuthorityText(u) ==> u.password.None? && u.port.None?
    ensures u.host.Some? && u.user.Some? ==> AT in AuthorityText(u)
    ensures u.host.Some? && AuthorityText(u) == [] ==> u.host == Some([])
  {
    hide Encode;
    if u.host.Some? {
      EncodeFirst(u.host.value, Host);
    }
    assert u.password.Some? ==> FieldText(u, Password)[0] == COLON;
    assert u.port.Some? ==> FieldText(u, Port)[0] == COLON;
    assert u.host.Some? && u.user.Some? ==> FieldText(u, Host)[0] == AT;
    hide FieldText;
  }

  lemma {:induction false} BarePath(u: Uri)
    requires Strings(u) && u.scheme.None? && u.opaquePart.None? && u.password.None? && u.port.None?
    requires Split(BodyText(u), QUESTION) == (AuthorityText(u) + FieldText(u, Path), Encoded(u, Query))
    ensures ParsePath(None, BodyText(u), Encoded(u, Fragment)) == u <==> Reparseable(u)
  {
    hide Encode, Parse, Format, SevenBitField, Split, BodyText, FieldText, AuthorityText, PlainField;
    var a, p := AuthorityText(u), FieldText(u, Path);
    NoAuthority(u);
    PathPartAvoids(u);
    EncodedSame(u, Path);
    EncodedSame(u, Query);
    EncodedSame(u, Fragment);
    if u.path.Some? {
      PathText(u);
    } else {
      NoField(u, Path);
    }
    if a + p == [] {
      assert u.path.None?;
    } else if [SLASH, SLASH] <= a + p {
      NetPathDiffers(u, BodyText(u), Encoded(u, Query), Encoded(u, Fragment));
    } else if a == [] {
      assert a + p == p;
    }
  }

  lemma {:induction false} EmptyBefore(a: Text, p: Text, c: byte)
    requires a + p != [] && (a + p)[0] == c && c !in a
    ensures a == []
  {
  }

  /** A text without a scheme that starts with two slashes is not read back as it was. */
  lemma {:induction false} NetPathDiffers(u: Uri, body: Text, query: Option<Text>, fragment: Option<Text>)
    requires Strings(u) && u.scheme.None? && u.opaquePart.None? && u.password.None? && u.port.None?
    requires [SLASH, SLASH] <= AuthorityText(u) + FieldText(u, Path)
    requires Split(body, QUESTION) == (AuthorityText(u) + FieldText(u, Path), query)
    ensures ParsePath(None, body, fragment) != u && !Reparseable(u)
  {
    hide Encode, SevenBitField, Split, FieldText, AuthorityText, PlainField, SplitAuthority, Decode, Index;
    var a, p := AuthorityText(u), FieldText(u, Path);
    NoAuthority(u);
    PathPartAvoids(u);
    StartsWithTwo(a + p);
    EmptyBefore(a, p, SLASH);
    assert a + p == p;
    if u.path.Some? {
      PathText(u);
      assert IsString(u.Get(Path).value);
      NetPathShorter(u.path.value);
    } else {
      NoField(u, Path);
    }
  }

  // ----- With a scheme and no opaque part

  /** Reading a printed field gives it back exactly if it has seven-bit characters only. */
  lemma {:induction false} FieldReparsed(u: Uri, f: Field)
    requires Strings(u)
    ensures DecodeField(Encoded(u, f)) == u.Get(f) <==> SevenBitField(u, f)
  {
    hide Encode, Decode, Mangle, SevenBit;
    if u.Get(f).Some? {
      assert IsString(u.Get(f).value);
      DecodeEncode(u.Get(f).value, f);
      MangleIdentity(u.Get(f).value);
    }
  }

  lemma {:induction false} LastIndexIs(x: Text, c: byte, y: Text)
    requires c !in y
    ensures LastIndex(x + [c] + y, c) == |x| && (x + [c] + y)[..|x|] == x && (x + [c] + y)[|x| + 1..] == y
  {
    hide LastIndex;
    var t := x + [c] + y;
    var i := LastIndex(t, c);
    assert t[|x|] == c;
    assert forall k :: |x| < k < |t| ==> t[k] == y[k - |x| - 1];
    InTail(t, i, |x|);
  }

  lemma {:induction false} InTail(t: Text, i: nat, k: nat)
    requires k < |t|
    ensures i < k ==> t[k] in t[i + 1..]
  {
    if i < k {
      assert t[i + 1..][k - i - 1] == t[k];
    }
  }

  /** An escaped field ends in a bracket exactly if the field does. */
  lemma {:induction false} EncodeBracket(t: Text, f: Field)
    ensures EndsInBracket(Encode(t, f)) <==> EndsInBracket(t)
  {
    if t != [] {
      var n := |t| - 1;
      assert t == t[..n] + [t[n]];
      EncodeAppend(t[..n], [t[n]], f);
      assert [t[n]][1..] == [];
      assert Encode([t[n]], f) == EncodeChar(t[n], f) + [];
      CharBracket(t[n], f);
    }
  }

  lemma {:induction false} CharBracket(c: byte, f: Field)
    ensures EncodeChar(c, f)[|EncodeChar(c, f)| - 1] == BRACKET <==> c == BRACKET
  {
  }

  lemma {:induction false} HostColon(t: Text)
    ensures COLON in Encode(t, Host) <==> COLON in t
  {
    if COLON !in t {
      EncodeNew(t, Host, COLON);
    } else {
      var i :| 0 <= i < |t| && t[i] == COLON;
      assert t == t[..i] + t[i..];
      EncodeAppend(t[..i], t[i..], Host);
      EncodeFirst(t[i..], Host);
    }
  }

  /** Host and port are read back exactly if they can be told apart. */
  lemma {:induction false} HostReparsed(u: Uri)
    requires Strings(u) && u.host.Some?
    ensures var (h, p) := SplitHost(Joined(Encode(u.host.value, Host), COLON, Encoded(u, Port)));
            Some(Decode(h)) == u.host && DecodeField(p) == u.port
            <==> HostAndPort(u.host.value, u.port) && SevenBitField(u, Host) && SevenBitField(u, Port)
  {
    hide Encode, Decode, LastIndex, SevenBitField, EndsInBracket;
    var e, p := Encode(u.host.value, Host), Encoded(u, Port);
    FieldReparsed(u, Host);
    FieldReparsed(u, Port);
    if p.Some? {
      EncodedAvoids(u, Port, COLON);
      LastIndexIs(e, COLON, p.value);
      EncodeBracket(u.port.value, Port);
      BracketEnd(e, p.value);
    } else {
      HostColon(u.host.value);
      EncodeBracket(u.host.value, Host);
      BracketIs(e);
    }
  }

  lemma {:induction false} BracketIs(t: Text)
    ensures EndsInBracket(t) <==> t != [] && t[|t| - 1] == BRACKET
  {
  }

  lemma {:induction false} BracketEnd(x: Text, y: Text)
    ensures var t := x + [COLON] + y; t[|t| - 1] == BRACKET <==> EndsInBracket(y)
  {
  }

  lemma {:induction false} AuthorityIs(u: Uri)
    requires u.host.Some?
    ensures var hp := Joined(Encode(u.host.value, Host), COLON, Encoded(u, Port));
            AuthorityText(u) == if u.user.Some? then Joined(Encode(u.user.value, User), COLON,
              Encoded(u, Password)) + [AT] + hp
                                else Joined([], COLON, Encoded(u, Password)) + hp
  {
    hide Encode;
  }

  /** The authority is read back exactly if there is a host, a password comes with a user, and host
      and port can be told apart. */
  lemma {:induction false} AuthorityReparsed(u: Uri)
    requires Strings(u)
    ensures var (user, password, h, p) := SplitAuthority(AuthorityText(u));
            && DecodeField(user) == u.user && DecodeField(password) == u.password
            && Some(Decode(h)) == u.host && DecodeField(p) == u.port
            <==> u.host.Some? && (u.password.Some? ==> u.user.Some?) && HostAndPort(u.host.value, u.port)
                 && SevenBitField(u, User) && SevenBitField(u, Password) && SevenBitField(u, Host)
                   && SevenBitField(u, Port)
  {
    hide Encode, Decode, Split, SplitHost, SevenBitField, HostAndPort, AuthorityText;
    if u.host.Some? {
      var hp := Joined(Encode(u.host.value, Host), COLON, Encoded(u, Port));
      HostReparsed(u);
      FieldReparsed(u, User);
      FieldReparsed(u, Password);
      EncodedAvoids(u, User, AT);
      EncodedAvoids(u, Password, AT);
      EncodedAvoids(u, Host, AT);
      EncodedAvoids(u, Port, AT);
      if u.user.Some? {
        var login := Joined(Encode(u.user.value, User), COLON, Encoded(u, Password));
        AuthorityIs(u);
        SplitFound(login, AT, hp);
        EncodedAvoids(u, User, COLON);
        SplitJoined(Encode(u.user.value, User), COLON, Encoded(u, Password));
      } else {
        AuthorityIs(u);
        assert u.password.None? ==> AuthorityText(u) == hp;
        SplitJoined(AuthorityText(u), AT, None);
      }
    }
  }

  lemma {:induction false} PathReparsed(u: Uri)
    requires Strings(u) && u.path.Some?
    ensures Some(Decode(FieldText(u, Path))) == u.path <==> AbsolutePath(u.path) && SevenBitField(u, Path)
  {
    hide Encode, Decode, Mangle;
    var p := u.path.value;
    assert IsString(u.Get(Path).value);
    PathText(u);
    FieldReparsed(u, Path);
    if !AbsolutePath(u.path) {
      DecodePlain(SLASH, Encode(p, Path));
      DecodeEncode(p, Path);
      MangleLonger(p);
    }
  }

  /** The steps of parsing a text with a scheme and two slashes. */
  lemma {:induction false} HierarchicalSplits(u: Uri)
    requires Strings(u) && u.scheme.Some? && u.opaquePart.None?
    ensures var (user, password, h, p) := SplitAuthority(AuthorityText(u));
            Parse(Format(u)) == DecodeAll(Uri(Encoded(u, Scheme), None, user, password, Some(h), p,
                                              if u.path.Some? then Some(FieldText(u, Path)) else None,
                                              Encoded(u, Query), Encoded(u, Fragment)))
  {
    hide Encode, Decode, Split, AuthorityText, SplitAuthority, DecodeAll, Parse, Format, FieldText, BodyText, ParsePath;
    ParseFormat(u);
    var s, a, p := Encode(u.scheme.value, Scheme), AuthorityText(u), FieldText(u, Path);
    var path := [SLASH, SLASH] + (a + p);
    HierarchicalBody(u);
    EncodedAvoids(u, Scheme, COLON);
    SplitFound(s, COLON, Joined(path, QUESTION, Encoded(u, Query)));
    PathPartAvoids(u);
    SplitJoined(path, QUESTION, Encoded(u, Query));
    if u.path.Some? {
      PathText(u);
    } else {
      NoField(u, Path);
    }
    NetPathParsed(Some(s), a, p, Joined(path, QUESTION, Encoded(u, Query)), Encoded(u, Query), Encoded(u, Fragment));
  }

  lemma {:induction false} HierarchicalBody(u: Uri)
    requires u.scheme.Some? && u.opaquePart.None?
    ensures var path := [SLASH, SLASH] + (AuthorityText(u) + FieldText(u, Path));
            BodyText(u) == Encode(u.scheme.value, Scheme) + [COLON] + Joined(path, QUESTION, Encoded(u, Query))
  {
    hide Encode, AuthorityText;
  }

  /** Two slashes, an authority and a path are taken apart again. */
  lemma {:induction false} NetPathParsed(scheme: Option<Text>, a: Text, p: Text, t: Text, query: Option<Text>,
                                         fragment: Option<Text>)
    requires SLASH !in a && (p == [] || p[0] == SLASH) && Split(t, QUESTION) == ([SLASH, SLASH] + (a + p), query)
    ensures var (user, password, host, port) := SplitAuthority(a);
            ParsePath(scheme, t, fragment)
            == DecodeAll(Uri(scheme, None, user, password, Some(host), port, if p == [] then None else Some(p), query,
              fragment))
  {
    hide Split, Index, SplitAuthority, DecodeAll;
    assert ([SLASH, SLASH] + (a + p))[2..] == a + p;
    StartsWithTwo([SLASH, SLASH] + (a + p));
    IndexIs(a, p, SLASH);
  }

  lemma {:induction false} HierarchicalReparsed(u: Uri)
    requires Strings(u) && u.scheme.Some? && u.opaquePart.None?
    ensures Parse(Format(u)) == u <==> Reparseable(u)
  {
    hide Encode, Decode, AuthorityText, SplitAuthority, Parse, Format, FieldText, AbsolutePath, HostAndPort,
         SevenBitField;
    HierarchicalSplits(u);
    AuthorityReparsed(u);
    FieldReparsed(u, Scheme);
    FieldReparsed(u, Query);
    FieldReparsed(u, Fragment);
    if u.path.Some? {
      PathReparsed(u);
    } else {
      NoPath(u);
    }
    EveryField(u);
  }

  lemma {:induction false} NoPath(u: Uri)
    ensures u.path.None? ==> AbsolutePath(u.path) && SevenBitField(u, Path)
  {
  }

  lemma {:induction false} EveryField(u: Uri)
    requires u.opaquePart.None?
    ensures (forall f: Field :: SevenBitField(u, f)) <==>
            SevenBitField(u, Scheme) && SevenBitField(u, User) && SevenBitField(u, Password) && SevenBitField(u, Host)
            && SevenBitField(u, Port) && SevenBitField(u, Path) && SevenBitField(u, Query) && SevenBitField(u, Fragment)
  {
    hide SevenBit;
  }

  /** The parser reads back from its text exactly the URIs that are reparseable. */
  lemma {:induction false} RoundTrip(u: Uri)
    requires Strings(u)
    ensures Parse(Format(u)) == u <==> Reparseable(u)
  {
    hide Parse, Format, Strings, Reparseable;
    if u.scheme.Some? && u.opaquePart.None? {
      HierarchicalReparsed(u);
    } else if u.scheme.Some? {
      OpaqueReparsed(u);
    } else if u.opaquePart.None? {
      BareReparsed(u);
    } else {
      OpaqueWithoutScheme(u);
    }
  }

  lemma {:induction false} OpaqueWithoutScheme(u: Uri)
    requires Strings(u) && u.scheme.None? && u.opaquePart.Some?
    ensures Parse(Format(u)) != u && !Reparseable(u)
  {
    hide Encode, Parse, Format, ParseBody, AuthorityText;
    ParseFormat(u);
    assert BodyText(u)[0] == COLON;
    ColonMeansScheme(BodyText(u), Encoded(u, Fragment));
  }
}
