/** Uniform Resource Identifiers: the text that the printer writes for a URI, and the URI that the
    parser reads from a text, as functions on sequences of bytes.

    A URI is reparseable if parsing its text gives the same URI again.  `Reparseable` says which
    ones are, in terms of the fields alone.
  */
module Uri {
  import opened Bits

  type Text = seq<byte>

  datatype Field = Scheme | Opaque | User | Password | Host | Port | Path | Query | Fragment

  /** Something for each field of a URI, or nothing: its text, or a pointer to it. */
  datatype Fields<T> = Uri(scheme: Option<T>, opaquePart: Option<T>, user: Option<T>, password: Option<T>,
                           host: Option<T>, port: Option<T>, path: Option<T>, query: Option<T>, fragment: Option<T>)
  {
    function Get(f: Field): Option<T> {
      match f
      case Scheme => scheme
      case Opaque => opaquePart
      case User => user
      case Password => password
      case Host => host
      case Port => port
      case Path => path
      case Query => query
      case Fragment => fragment
    }
  }

  type Uri = Fields<Text>

  const HASH: byte := 35
  const PERCENT: byte := 37
  const PLUS: byte := 43
  const MINUS: byte := 45
  const SLASH: byte := 47
  const COLON: byte := 58
  const QUESTION: byte := 63
  const AT: byte := 64
  const BRACKET: byte := 93

  // ----- Escaping

  /** The characters that are escaped in a field although they can be printed. */
  function Significant(f: Field): set<byte> {
    match f
    case Opaque => {SLASH, HASH}
    case Host => {SLASH, HASH, AT, QUESTION}
    case Path => {HASH, COLON, AT, QUESTION}
    case Query => {HASH, COLON, AT, QUESTION}
    case _ => {SLASH, HASH, COLON, AT, QUESTION}
  }

  predicate Escaped(c: byte, f: Field) {
    !(32 <= c <= 126) || c == 32 || c == PERCENT || c in Significant(f)
  }

  /** An upper case hexadecimal digit. */
  function Hex(d: nat): (c: byte)
    requires d < 16
    ensures c in HEX
  {
    if d < 10 then 48 + d else 55 + d
  }

  const HEX: set<byte> := {48, 49, 50, 51, 52, 53, 54, 55, 56, 57, 65, 66, 67, 68, 69, 70}

  /** A character as it is printed.  Characters are signed and are printed as 32-bit numbers, so that
      the escape of one with the top bit set has eight digits. */
  function EncodeChar(c: byte, f: Field): (t: Text)
    ensures t != []
  {
    if !Escaped(c, f) then [c]
    else [PERCENT] + (if c < 128 then [] else [70, 70, 70, 70, 70, 70]) + [Hex(c / 16), Hex(c % 16)]
  }

  function Encode(t: Text, f: Field): Text {
    if t == [] then [] else EncodeChar(t[0], f) + Encode(t[1..], f)
  }

  // ----- Unescaping

  predicate IsSpace(c: byte) {
    c == 32 || 9 <= c <= 13
  }

  function Digit(c: byte): (d: nat)
    ensures d < 16 || d == 99
  {
    if 97 <= c <= 102 then c - 87 else if 65 <= c <= 70 then c - 55 else if 48 <= c <= 57 then c - 48 else 99
  }

  function Spaces(t: Text): (n: nat)
    ensures n <= |t|
  {
    if t != [] && IsSpace(t[0]) then 1 + Spaces(t[1..]) else 0
  }

  function Digits(t: Text): (n: nat)
    ensures n <= |t|
  {
    if t != [] && Digit(t[0]) < 16 then 1 + Digits(t[1..]) else 0
  }

  /** The value of leading hexadecimal digits, added to the digits before them. */
  function Value(t: Text, v: nat): nat {
    if t != [] && Digit(t[0]) < 16 then Value(t[1..], 16 * v + Digit(t[0])) else v
  }

  /** A number in base 16 as text: its value modulo 256 and the number of characters scanned, which
      include white space and a sign whether or not digits follow. */
  function Number(t: Text): (r: (byte, nat))
    ensures r.1 <= |t|
  {
    var w := Spaces(t);
    var g := if w < |t| && (t[w] == MINUS || t[w] == PLUS) then w + 1 else w;
    var v := Value(t[g..], 0) % 256;
    (if w < |t| && t[w] == MINUS then (256 - v) % 256 else v, g + Digits(t[g..]))
  }

  /** The first character of an escaped text, and how many characters it takes. */
  function DecodeChar(t: Text): (r: (byte, nat))
    requires t != []
    ensures 1 <= r.1 <= |t|
  {
    if t[0] != PERCENT then (t[0], 1) else
      var n := Number(t[1..Min(|t|, 3)]);
      (if n.1 > 0 then n.0 else PERCENT, 1 + n.1)
  }

  /** Unescaping stops at an escaped zero. */
  function Decode(t: Text): (r: Text)
    ensures |r| <= |t|
  {
    if t == [] then [] else
      var (c, n) := DecodeChar(t);
      if c == 0 then [] else [c] + Decode(t[n..])
  }

  // ----- Printing

  /** What is printed before a field. */
  function Prefix(u: Uri, f: Field): Text {
    match f
    case Opaque => [COLON]
    case Password => [COLON]
    case Host => if u.user.Some? then [AT] else []
    case Port => [COLON]
    case Path => if u.path.Some? && u.path.value != [] && u.path.value[0] == SLASH then [] else [SLASH]
    case Query => [QUESTION]
    case Fragment => [HASH]
    case _ => []
  }

  /** What is printed after a field. */
  function Postfix(u: Uri, f: Field): Text {
    if f == Scheme && u.opaquePart.None? then [COLON, SLASH, SLASH] else []
  }

  function FieldText(u: Uri, f: Field): Text {
    if u.Get(f).None? then [] else Prefix(u, f) + Encode(u.Get(f).value, f) + Postfix(u, f)
  }

  function AuthorityText(u: Uri): Text {
    FieldText(u, User) + FieldText(u, Password) + FieldText(u, Host) + FieldText(u, Port)
  }

  /** All but the fragment. */
  function BodyText(u: Uri): Text {
    FieldText(u, Scheme) + FieldText(u, Opaque) + AuthorityText(u) + FieldText(u, Path) + FieldText(u, Query)
  }

  function Format(u: Uri): Text {
    BodyText(u) + FieldText(u, Fragment)
  }

  // ----- Parsing

  /** The first place of a character, or the length if there is none. */
  function Index(t: Text, c: byte): (i: nat)
    ensures i <= |t| && c !in t[..i] && (i < |t| ==> t[i] == c) && (i == |t| <==> c !in t)
  {
    if t == [] || t[0] == c then 0 else
      var i := 1 + Index(t[1..], c);
      assert t[..i] == [t[0]] + t[1..][..i - 1];
      i
  }

  /** The last place of a character, or the length if there is none. */
  function LastIndex(t: Text, c: byte): (i: nat)
    ensures i <= |t| && (i < |t| ==> t[i] == c && c !in t[i + 1..]) && (i == |t| <==> c !in t)
  {
    if c !in t then |t| else if t[|t| - 1] == c then |t| - 1 else
      var n := |t| - 1;
      assert t == t[..n] + [t[n]];
      var i := LastIndex(t[..n], c);
      assert t[i + 1..] == t[..n][i + 1..] + [t[n]];
      i
  }

  /** Split a text at the first place of a character. */
  function Split(t: Text, c: byte): (Text, Option<Text>) {
    var i := Index(t, c);
    if i == |t| then (t, None) else (t[..i], Some(t[i + 1..]))
  }

  const PARAMS: Text := [35, 35, 112, 97, 114, 97, 109, 115]

  /** The text before a parameter list. */
  function WithoutParams(t: Text): Text {
    if t == [] || PARAMS <= t then [] else [t[0]] + WithoutParams(t[1..])
  }

  /** User, password, host and port of an authority, still escaped. */
  function SplitAuthority(t: Text): (Option<Text>, Option<Text>, Text, Option<Text>) {
    var at := Split(t, AT);
    var host := if at.1.Some? then at.1.value else t;
    var login := Split(at.0, COLON);
    var hp := SplitHost(host);
    (if at.1.Some? then Some(login.0) else None, if at.1.Some? then login.1 else None, hp.0, hp.1)
  }

  /** Host and port; a colon in a literal address does not start a port. */
  function SplitHost(t: Text): (Text, Option<Text>) {
    var i := LastIndex(t, COLON);
    if i == |t| || t[|t| - 1] == BRACKET then (t, None) else (t[..i], Some(t[i + 1..]))
  }

  function DecodeField(t: Option<Text>): Option<Text> {
    if t.None? then None else Some(Decode(t.value))
  }

  /** All fields unescaped. */
  function DecodeAll(u: Uri): Uri {
    Uri(DecodeField(u.scheme), DecodeField(u.opaquePart), DecodeField(u.user), DecodeField(u.password),
        DecodeField(u.host), DecodeField(u.port), DecodeField(u.path), DecodeField(u.query), DecodeField(u.fragment))
  }

  const EMPTY: Uri := Uri(None, None, None, None, None, None, None, None, None)

  /** The fields of a text that follows the scheme, if there is one. */
  function ParsePath(scheme: Option<Text>, t: Text, fragment: Option<Text>): Uri {
    var (path, query) := Split(t, QUESTION);
    var u := EMPTY.(scheme := scheme, query := query, fragment := fragment);
    if path == [] then u
    else if !([SLASH, SLASH] <= path) then u.(path := Some(path))
    else
      var i := Index(path[2..], SLASH);
      var (user, password, host, port) := SplitAuthority(path[2..][..i]);
      DecodeAll(u.(user := user, password := password, host := Some(host), port := port,
                   path := if i < |path[2..]| then Some(path[2..][i..]) else None))
  }

  /** The fields of a text without its fragment.  Fields are unescaped only if there is an
      authority. */
  function ParseBody(body: Text, fragment: Option<Text>): Uri {
    var (scheme, rest) := Split(body, COLON);
    if rest.None? then ParsePath(None, body, fragment)
    else if rest.value != [] && rest.value[0] == SLASH then ParsePath(Some(scheme), rest.value, fragment)
    else EMPTY.(scheme := Some(scheme), opaquePart := rest, fragment := fragment)
  }

  function Parse(t: Text): Uri {
    var (body, fragment) := Split(WithoutParams(t), HASH);
    ParseBody(body, fragment)
  }
}
