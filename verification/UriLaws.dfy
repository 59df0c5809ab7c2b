/** What printing and parsing do, character by character and part by part, said with the characters
    themselves: which characters are escaped and how, what each escape stands for, and what a text
    made of given parts is taken apart to.
  */
module UriLaws {
  import opened Bits
  import opened Uri
  import opened UriRoundTrip

  // ----- Escaping

  /** A character is printed as it is exactly if it is printable, neither a space nor a percent sign, and
      not one of those listed for its field. */
  lemma {:induction false} PrintedAsIs(c: byte, f: Field)
    ensures EncodeChar(c, f) == [c] <==>
            33 <= c <= 126 && c != 37
            && c !in (match f
                      case Opaque => {47, 35}
                      case Host => {47, 35, 64, 63}
                      case Path => {35, 58, 64, 63}
                      case Query => {35, 58, 64, 63}
                      case _ => {47, 35, 58, 64, 63})
  {
    hide Hex;
    if Escaped(c, f) {
      assert |EncodeChar(c, f)| >= 3;
    }
  }

  /** Any other character is printed as a percent sign and upper case digits: two of them, or eight with
      six times F in front if the top bit is set. */
  lemma {:induction false} PrintedEscaped(c: byte, f: Field)
    requires EncodeChar(c, f) != [c]
    ensures var t, a, b := EncodeChar(c, f), c / 16, c % 16;
            && |t| == (if c < 128 then 3 else 9) && t[0] == 37 && (forall i :: 1 <= i < |t| - 2 ==> t[i] == 70)
            && t[|t| - 2] == (if a < 10 then 48 + a else 55 + a) && t[|t| - 1] == (if b < 10 then 48 + b else 55 + b)
  {
  }

  /** Fields are printed character by character. */
  lemma {:induction false} PrintedEach(c: byte, t: Text, f: Field)
    ensures Encode([], f) == [] && Encode([c] + t, f) == EncodeChar(c, f) + Encode(t, f)
  {
    assert ([c] + t)[1..] == t;
  }

  // ----- Unescaping

  /** Hexadecimal digits, in either case. */
  lemma {:induction false} StandsDigit(c: byte, a: nat)
    ensures (a < 10 && c == 48 + a) || (10 <= a < 16 && (c == 55 + a || c == 87 + a)) <==> a < 16 && Digit(c) == a
  {
  }

  /** A character that is no digit, and none that a number may start with. */
  lemma {:induction false} NoDigit(c: byte)
    ensures Digit(c) >= 16 <==> !(48 <= c <= 57) && !(65 <= c <= 70) && !(97 <= c <= 102)
    ensures IsSpace(c) <==> c == 9 || c == 10 || c == 11 || c == 12 || c == 13 || c == 32
  {
  }

  /** What is scanned after a percent sign decides. */
  lemma {:induction false} DecodeScanned(t: Text, c: byte, n: nat)
    requires t != [] && t[0] == 37 && Number(t[1..Min(|t|, 3)]) == (c, n)
    ensures n < |t|
    ensures Decode(t) == if n == 0 then [37] + Decode(t[1..]) else if c == 0 then [] else [c] + Decode(t[1 + n..])
  {
    hide Number;
  }

  /** A percent sign and two digits stand for a character; zero ends the text. */
  lemma {:induction false} DecodeTwoDigits(p: byte, q: byte, a: nat, b: nat, rest: Text)
    requires (a < 10 && p == 48 + a) || (10 <= a < 16 && (p == 55 + a || p == 87 + a))
    requires (b < 10 && q == 48 + b) || (10 <= b < 16 && (q == 55 + b || q == 87 + b))
    ensures Decode([37, p, q] + rest) == if a == 0 && b == 0 then [] else [16 * a + b] + Decode(rest)
  {
    hide Digit, Number, Decode;
    StandsDigit(p, a);
    StandsDigit(q, b);
    NoDigit(p);
    NumberTwo(p, q);
    var t := [37, p, q] + rest;
    assert t[1..3] == [p, q] && t[3..] == rest;
    DecodeScanned(t, 16 * a + b, 2);
  }

  /** A percent sign and one digit do too, if no other digit follows. */
  lemma {:induction false} DecodeOneDigit(p: byte, a: nat, rest: Text)
    requires (a < 10 && p == 48 + a) || (10 <= a < 16 && (p == 55 + a || p == 87 + a))
    requires rest == [] || (!(48 <= rest[0] <= 57) && !(65 <= rest[0] <= 70) && !(97 <= rest[0] <= 102))
    ensures Decode([37, p] + rest) == if a == 0 then [] else [a] + Decode(rest)
  {
    hide Digit, Number, Decode;
    StandsDigit(p, a);
    NoDigit(p);
    var t := [37, p] + rest;
    assert t[2..] == rest;
    if rest == [] {
      assert t[1..2] == [p];
      NumberOne(p);
    } else {
      NoDigit(rest[0]);
      assert t[1..3] == [p, rest[0]];
      NumberTwo(p, rest[0]);
    }
    DecodeScanned(t, a, 1);
  }

  /** A percent sign stays as it is if a number cannot start after it. */
  lemma {:induction false} DecodeNoDigit(rest: Text)
    requires rest == [] || (!(48 <= rest[0] <= 57) && !(65 <= rest[0] <= 70) && !(97 <= rest[0] <= 102)
                            && rest[0] != 43 && rest[0] != 45 && rest[0] != 32 && !(9 <= rest[0] <= 13))
    ensures Decode([37] + rest) == [37] + Decode(rest)
  {
    hide Digit, Decode;
    var t := [37] + rest;
    assert t[1..] == rest;
    var w := t[1..Min(|t|, 3)];
    if rest != [] {
      NoDigit(rest[0]);
      assert w[0] == rest[0] && w[0..] == w;
    }
    DecodeScanned(t, Number(w).0, 0);
  }

  /** A number may start with a sign or white space, of which the minus sign negates it modulo 256; without a
      digit after it the text ends. */
  lemma {:induction false} DecodeSigned(p: byte, q: byte, b: nat, rest: Text)
    requires p == 43 || p == 45 || p == 32 || 9 <= p <= 13
    requires (b < 10 && q == 48 + b) || (10 <= b < 16 && (q == 55 + b || q == 87 + b))
    ensures Decode([37, p, q] + rest)
            == if b == 0 then [] else [if p == 45 then 256 - b else b] + Decode(rest)
  {
    hide Digit, Number, Decode;
    StandsDigit(q, b);
    NoDigit(p);
    SignedNumber(p, q);
    var t := [37, p, q] + rest;
    assert t[1..3] == [p, q] && t[3..] == rest;
    DecodeScanned(t, if p == 45 then (256 - b) % 256 else b, 2);
  }

  lemma {:induction false} DecodeNothing(p: byte, rest: Text)
    requires p == 43 || p == 45 || p == 32 || 9 <= p <= 13
    requires rest == [] || (!(48 <= rest[0] <= 57) && !(65 <= rest[0] <= 70) && !(97 <= rest[0] <= 102))
    ensures Decode([37, p] + rest) == []
  {
    hide Digit, Number, Decode;
    NoDigit(p);
    var t := [37, p] + rest;
    var w := t[1..Min(|t|, 3)];
    if rest != [] {
      NoDigit(rest[0]);
      assert w == [p, rest[0]];
      SignedNumber(p, rest[0]);
    } else {
      assert w == [p];
      SignedNone(p);
    }
    DecodeScanned(t, 0, Number(w).1);
  }

  lemma {:induction false} NumberOne(p: byte)
    requires !IsSpace(p) && p != MINUS && p != PLUS && Digit(p) < 16
    ensures Number([p]) == (Digit(p), 1)
  {
    hide Digit;
    var t := [p];
    assert t[0..] == t && t[1..] == [];
    assert Value([], Digit(p)) == Digit(p) && Value(t, 0) == Value(t[1..], Digit(p));
    assert Digits([]) == 0;
  }

  lemma {:induction false} NumberTwo(p: byte, q: byte)
    requires !IsSpace(p) && p != MINUS && p != PLUS && Digit(p) < 16
    ensures Number([p, q]) == if Digit(q) < 16 then (16 * Digit(p) + Digit(q), 2) else (Digit(p), 1)
  {
    hide Digit;
    var t := [p, q];
    assert t[0..] == t && t[1..] == [q] && [q][1..] == [];
    assert Value(t, 0) == Value(t[1..], Digit(p));
    if Digit(q) < 16 {
      assert Value([q], Digit(p)) == Value([], 16 * Digit(p) + Digit(q)) == 16 * Digit(p) + Digit(q);
    }
    assert Digits([]) == 0 && Digits([q]) == if Digit(q) < 16 then 1 else 0;
  }

  lemma {:induction false} SignedNone(p: byte)
    requires IsSpace(p) || p == MINUS || p == PLUS
    ensures Number([p]).0 == 0 && Number([p]).1 == 1
  {
    var t := [p];
    assert t[1..] == [] && Spaces([]) == 0 && Digits([]) == 0 && Value([], 0) == 0;
  }

  /** A sign or a space, and another character. */
  lemma {:induction false} SignedNumber(p: byte, q: byte)
    requires IsSpace(p) || p == MINUS || p == PLUS
    ensures Digit(q) < 16 ==> Number([p, q]) == ((if p == MINUS then (256 - Digit(q)) % 256 else Digit(q)), 2)
    ensures Digit(q) >= 16 ==> Number([p, q]).0 == 0 && Number([p, q]).1 > 0
  {
    hide Digit;
    NoDigit(q);
    var t := [p, q];
    assert t[1..] == [q] && [q][1..] == [] && t[2..] == [];
    assert Spaces([]) == 0 && Digits([]) == 0 && Value([], 0) == 0 && Value([], Digit(q)) == Digit(q);
    assert Digit(q) < 16 ==> Value([q], 0) == Value([], Digit(q)) && Digits([q]) == 1 && Spaces([q]) == 0;
    assert Digit(q) < 16 ==> Spaces(t) == (if IsSpace(p) then 1 else 0);
  }

  // ----- Printing

  /** What is printed for each field that is there, and in which order. */
  lemma {:induction false} Printed(u: Uri)
    ensures Format(u) == FieldText(u, Scheme) + FieldText(u, Opaque)
                         + (FieldText(u, User) + FieldText(u, Password) + FieldText(u, Host) + FieldText(u, Port))
                         + FieldText(u, Path) + FieldText(u, Query) + FieldText(u, Fragment)
    ensures forall f: Field :: u.Get(f).None? ==> FieldText(u, f) == []
    ensures u.scheme.Some? ==>
              FieldText(u, Scheme) == Encode(u.scheme.value, Scheme) + if u.opaquePart.None? then [58, 47, 47] else []
    ensures u.opaquePart.Some? ==> FieldText(u, Opaque) == [58] + Encode(u.opaquePart.value, Opaque)
    ensures u.user.Some? ==> FieldText(u, User) == Encode(u.user.value, User)
    ensures u.password.Some? ==> FieldText(u, Password) == [58] + Encode(u.password.value, Password)
    ensures u.host.Some? ==>
              FieldText(u, Host) == (if u.user.Some? then [64] else []) + Encode(u.host.value, Host)
    ensures u.port.Some? ==> FieldText(u, Port) == [58] + Encode(u.port.value, Port)
    ensures u.path.Some? ==>
              FieldText(u, Path) == (if u.path.value != [] && u.path.value[0] == 47 then [] else [47])
                                    + Encode(u.path.value, Path)
    ensures u.query.Some? ==> FieldText(u, Query) == [63] + Encode(u.query.value, Query)
    ensures u.fragment.Some? ==> FieldText(u, Fragment) == [35] + Encode(u.fragment.value, Fragment)
  {
    hide Encode;
  }

  // ----- Parsing

  /** No parameter list starts in a text. */
  ghost predicate NoList(t: Text) {
    forall i :: 0 <= i < |t| ==> !([35, 35, 112, 97, 114, 97, 109, 115] <= t[i..])
  }

  lemma {:induction false} NoListSame(t: Text)
    requires NoList(t)
    ensures WithoutParams(t) == t
  {
    if t != [] {
      assert t[0..] == t;
      forall i | 0 <= i < |t[1..]| ensures !(PARAMS <= t[1..][i..]) {
        assert t[1..][i..] == t[i + 1..];
      }
      NoListSame(t[1..]);
    }
  }

  /** Everything from the first parameter list on is cut off. */
  lemma {:induction false} ListCut(t: Text, rest: Text)
    requires forall i :: 0 <= i < |t| ==>
               !([35, 35, 112, 97, 114, 97, 109, 115] <= (t + [35, 35, 112, 97, 114, 97, 109, 115] + rest)[i..])
    ensures Parse(t + [35, 35, 112, 97, 114, 97, 109, 115] + rest) == ParseBody(Split(t, 35).0, Split(t, 35).1)
  {
    hide ParseBody, Split;
    assert t + PARAMS + rest == t + (PARAMS + rest);
    CutAt(t, PARAMS + rest);
  }

  lemma {:induction false} CutAt(t: Text, rest: Text)
    requires PARAMS <= rest && forall i :: 0 <= i < |t| ==> !(PARAMS <= (t + rest)[i..])
    ensures WithoutParams(t + rest) == t
  {
    if t == [] {
      assert t + rest == rest;
    } else {
      assert (t + rest)[0..] == t + rest && (t + rest)[1..] == t[1..] + rest;
      forall i | 0 <= i < |t[1..]| ensures !(PARAMS <= (t[1..] + rest)[i..]) {
        assert (t[1..] + rest)[i..] == (t + rest)[i + 1..];
      }
      CutAt(t[1..], rest);
    }
  }

  /** A text of a scheme and something that does not start with a slash: neither is unescaped. */
  lemma {:induction false} ParseOpaque(scheme: Text, part: Text, fragment: Option<Text>)
    requires 58 !in scheme && 35 !in scheme && 35 !in part && (part == [] || part[0] != 47)
    requires NoList(Joined(scheme + [58] + part, 35, fragment))
    ensures Parse(Joined(scheme + [58] + part, 35, fragment))
            == Uri(Some(scheme), Some(part), None, None, None, None, None, None, fragment)
  {
    hide Split, ParsePath;
    var body := scheme + [58] + part;
    NoListSame(Joined(body, 35, fragment));
    SplitJoined(body, 35, fragment);
    SplitFound(scheme, 58, part);
  }

  /** The body of a text with an optional scheme in front. */
  function Schemed(scheme: Option<Text>, t: Text): Text {
    if scheme.None? then t else scheme.value + [58] + t
  }

  /** The scheme can be told from the rest: it has no colon, and if there is none the rest has none. */
  predicate SchemeApart(scheme: Option<Text>, t: Text) {
    if scheme.None? then 58 !in t else 58 !in scheme.value && t != [] && t[0] == 47
  }

  lemma {:induction false} ParseSchemed(scheme: Option<Text>, t: Text, fragment: Option<Text>)
    requires SchemeApart(scheme, t) && 35 !in Schemed(scheme, t)
    requires NoList(Joined(Schemed(scheme, t), 35, fragment))
    ensures Parse(Joined(Schemed(scheme, t), 35, fragment)) == ParsePath(scheme, t, fragment)
  {
    hide Split, ParsePath;
    var body := Schemed(scheme, t);
    NoListSame(Joined(body, 35, fragment));
    SplitJoined(body, 35, fragment);
    if scheme.None? {
      SplitJoined(t, 58, None);
    } else {
      SplitFound(scheme.value, 58, t);
    }
  }

  /** A text of a path that does not start with two slashes, and a query, after a scheme or none: nothing is
      unescaped. */
  lemma {:induction false} ParseRelative(scheme: Option<Text>, path: Text, query: Option<Text>, fragment: Option<Text>)
    requires 63 !in path && !([47, 47] <= path)
    requires SchemeApart(scheme, Joined(path, 63, query)) && 35 !in Schemed(scheme, Joined(path, 63, query))
    requires NoList(Joined(Schemed(scheme, Joined(path, 63, query)), 35, fragment))
    ensures Parse(Joined(Schemed(scheme, Joined(path, 63, query)), 35, fragment))
            == Uri(scheme, None, None, None, None, None, if path == [] then None else Some(path), query, fragment)
  {
    hide Split;
    ParseSchemed(scheme, Joined(path, 63, query), fragment);
    SplitJoined(path, 63, query);
  }

  /** User and password before the host, or none of them. */
  function Authority(login: Option<(Text, Option<Text>)>, host: Text, port: Option<Text>): Text {
    (if login.None? then [] else Joined(login.value.0, 58, login.value.1) + [64]) + Joined(host, 58, port)
  }

  /** The parts of an authority can be told apart: the login ends at the first at sign and the user at the
      first colon, and the port starts at the last colon, unless what follows ends in a bracket. */
  predicate PartsApart(login: Option<(Text, Option<Text>)>, host: Text, port: Option<Text>) {
    (if login.None? then 64 !in Joined(host, 58, port)
     else 58 !in login.value.0 && 64 !in Joined(login.value.0, 58, login.value.1))
    && (if port.None? then 58 !in host || host[|host| - 1] == 93
        else 58 !in port.value && (port.value == [] || port.value[|port.value| - 1] != 93))
  }

  lemma {:induction false} SplitParts(login: Option<(Text, Option<Text>)>, host: Text, port: Option<Text>)
    requires PartsApart(login, host, port)
    ensures SplitAuthority(Authority(login, host, port))
            == ((if login.None? then None else Some(login.value.0)), (if login.None? then None else login.value.1),
                host, port)
  {
    hide Split, SplitHost, Index, LastIndex;
    var hp := Joined(host, 58, port);
    SplitHostIs(host, port);
    if login.None? {
      SplitJoined(hp, 64, None);
      assert [] + hp == hp;
    } else {
      var l := Joined(login.value.0, 58, login.value.1);
      SplitFound(l, 64, hp);
      SplitJoined(login.value.0, 58, login.value.1);
    }
  }

  lemma {:induction false} SplitHostIs(host: Text, port: Option<Text>)
    requires if port.None? then 58 !in host || host[|host| - 1] == 93
             else 58 !in port.value && (port.value == [] || port.value[|port.value| - 1] != 93)
    ensures SplitHost(Joined(host, 58, port)) == (host, port)
  {
    hide LastIndex;
    if port.Some? {
      LastIndexIs(host, 58, port.value);
    }
  }

  /** A text with an authority after two slashes, a path or none, and a query: all parts are unescaped. */
  lemma {:induction false} ParseAuthority(scheme: Option<Text>, login: Option<(Text, Option<Text>)>, host: Text,
                                          port: Option<Text>, path: Text, query: Option<Text>, fragment: Option<Text>)
    requires PartsApart(login, host, port) && 47 !in Authority(login, host, port) && (path == [] || path[0] == 47)
    requires 63 !in Authority(login, host, port) + path
    requires var t := Joined([47, 47] + (Authority(login, host, port) + path), 63, query);
             && SchemeApart(scheme, t) && 35 !in Schemed(scheme, t) && NoList(Joined(Schemed(scheme, t), 35, fragment))
    ensures var t := Joined([47, 47] + (Authority(login, host, port) + path), 63, query);
            Parse(Joined(Schemed(scheme, t), 35, fragment))
            == DecodeAll(Uri(scheme, None, if login.None? then None else Some(login.value.0),
                             if login.None? then None else login.value.1, Some(host), port,
                             if path == [] then None else Some(path), query, fragment))
  {
    hide Split, SplitAuthority, DecodeAll, ParsePath, Authority, PartsApart;
    var a := Authority(login, host, port);
    var t := Joined([47, 47] + (a + path), 63, query);
    ParseSchemed(scheme, t, fragment);
    SplitJoined([47, 47] + (a + path), 63, query);
    NetPathParsed(scheme, a, path, t, query, fragment);
    SplitParts(login, host, port);
  }

  /** Unescaping all fields unescapes each of them. */
  lemma {:induction false} DecodeEach(u: Uri, f: Field)
    ensures DecodeAll(u).Get(f) == if u.Get(f).None? then None else Some(Decode(u.Get(f).value))
  {
    hide Decode;
  }
}
