/** Base64url as the desktop client computes it: the browser's `btoa` and
    `atob` (RFC 4648, section 4) with the alphabet of section 5 swapped in and
    out around them and the padding dropped and restored. */
module Base64Url {
  import opened Prelude

  type Byte = n: nat | n < 256
  type Sextet = n: nat | n < 64

  // ---- The alphabets -------------------------------------------------------

  function ToChar(n: Sextet): char {
    if n < 26 then (65 + n) as char
    else if n < 52 then (71 + n) as char
    else if n < 62 then (n - 4) as char
    else if n == 62 then '+' else '/'
  }

  predicate InAlphabet(c: char) {
    'A' <= c <= 'Z' || 'a' <= c <= 'z' || '0' <= c <= '9' || c == '+' || c == '/'
  }

  /** The value of a character; outside the alphabet it does not matter. */
  function FromChar(c: char): (n: Sextet)
    ensures InAlphabet(c) ==> ToChar(n) == c
  {
    if 'A' <= c <= 'Z' then c as nat - 65
    else if 'a' <= c <= 'z' then c as nat - 71
    else if '0' <= c <= '9' then c as nat + 4
    else if c == '+' then 62 else 63
  }

  lemma ToCharFromChar(n: Sextet)
    ensures InAlphabet(ToChar(n)) && FromChar(ToChar(n)) == n
  {
  }

  // ---- btoa and atob -------------------------------------------------------

  /** What one, two and three bytes become. */
  function Pair(x: Byte): (r: string)
    ensures |r| == 2
  {
    [ToChar(x / 4), ToChar(x % 4 * 16)]
  }

  function Triple(x: Byte, y: Byte): (r: string)
    ensures |r| == 3
  {
    [ToChar(x / 4), ToChar(x % 4 * 16 + y / 16), ToChar(y % 16 * 4)]
  }

  function Quad(x: Byte, y: Byte, z: Byte): (r: string)
    ensures |r| == 4
  {
    [ToChar(x / 4), ToChar(x % 4 * 16 + y / 16), ToChar(y % 16 * 4 + z / 64), ToChar(z % 64)]
  }

  /** `btoa`: three bytes become four characters, the rest is padded. */
  function Btoa(b: seq<Byte>): string {
    if b == [] then ""
    else if |b| == 1 then Pair(b[0]) + "=="
    else if |b| == 2 then Triple(b[0], b[1]) + "="
    else Quad(b[0], b[1], b[2]) + Btoa(b[3..])
  }

  /** ASCII white space, which forgiving decoding skips. */
  predicate IsSpace(c: char) {
    c == '\t' || c == '\n' || c as nat == 12 || c == '\r' || c == ' '
  }

  function Strip(s: string): string {
    if s == "" then "" else (if IsSpace(s[0]) then "" else [s[0]]) + Strip(s[1..])
  }

  /** Padding counts only on a length divisible by four, and only two deep. */
  function Unpad(s: string): string {
    if |s| % 4 == 0 && s != "" && s[|s| - 1] == '=' then
      if s[|s| - 2] == '=' then s[..|s| - 2] else s[..|s| - 1]
    else s
  }

  function Bytes1(p: Sextet, q: Sextet): seq<Byte> {
    [p * 4 + q / 16]
  }

  function Bytes2(p: Sextet, q: Sextet, r: Sextet): seq<Byte> {
    [p * 4 + q / 16, q % 16 * 16 + r / 4]
  }

  function Bytes3(p: Sextet, q: Sextet, r: Sextet, s: Sextet): seq<Byte> {
    [p * 4 + q / 16, q % 16 * 16 + r / 4, r % 4 * 64 + s]
  }

  /** Bits regrouped by eight; what is left over is dropped. */
  function Decode(s: string): (b: seq<Byte>) {
    if |s| < 2 then []
    else if |s| == 2 then Bytes1(FromChar(s[0]), FromChar(s[1]))
    else if |s| == 3 then Bytes2(FromChar(s[0]), FromChar(s[1]), FromChar(s[2]))
    else Bytes3(FromChar(s[0]), FromChar(s[1]), FromChar(s[2]), FromChar(s[3])) + Decode(s[4..])
  }

  /** `atob`: the forgiving-base64 decode of the Infra Standard. */
  function Atob(s: string): Option<seq<Byte>> {
    var t := Unpad(Strip(s));
    if |t| % 4 == 1 || exists c :: c in t && !InAlphabet(c) then None else Some(Decode(t))
  }

  // ---- The client's two functions ------------------------------------------

  function Replace(s: string, from: char, to: char): (r: string)
    ensures |r| == |s|
    ensures forall i :: 0 <= i < |s| ==> r[i] == if s[i] == from then to else s[i]
  {
    seq(|s|, i requires 0 <= i < |s| => if s[i] == from then to else s[i])
  }

  function DropPadding(s: string): string {
    if s != "" && s[|s| - 1] == '=' then DropPadding(s[..|s| - 1]) else s
  }

  function Equals(n: nat): (r: string)
    ensures |r| == n
  {
    seq(n, _ => '=')
  }

  /** The number of `=` that `padEnd` adds. */
  function Missing(n: nat): (r: nat)
    ensures (n + r) % 4 == 0 && r < 4
  {
    (4 - n % 4) % 4
  }

  function Encoded(b: seq<Byte>): string {
    DropPadding(Replace(Replace(Btoa(b), '+', '-'), '/', '_'))
  }

  function Decoded(value: string): Option<seq<Byte>> {
    var padded := Replace(Replace(value, '-', '+'), '_', '/');
    Atob(padded + Equals(Missing(|padded|)))
  }

  /** The binary string: one character per byte, as `btoa` wants it. */
  function Binary(b: seq<Byte>): (r: string)
    ensures |r| == |b|
    ensures forall i :: 0 <= i < |b| ==> r[i] as nat == b[i]
  {
    seq(|b|, i requires 0 <= i < |b| => b[i] as char)
  }

  function CharCodes(s: string): (b: seq<Byte>)
    requires forall i :: 0 <= i < |s| ==> s[i] as nat < 256
    ensures |b| == |s|
    ensures forall i :: 0 <= i < |s| ==> b[i] == s[i] as nat
  {
    if s == "" then [] else [s[0] as nat] + CharCodes(s[1..])
  }

  method BytesToBase64Url(bytes: seq<Byte>) returns (text: string)
    ensures text == Encoded(bytes)
  {
    var binary := "";
    for i := 0 to |bytes|
      invariant |binary| == i
      invariant forall j :: 0 <= j < i ==> binary[j] as nat == bytes[j]
    {
      binary := binary + [bytes[i] as char];
    }
    assert CharCodes(binary) == bytes;
    text := Replace(Replace(Btoa(CharCodes(binary)), '+', '-'), '/', '_');
    text := DropPadding(text);
  }

  method Base64UrlToBytes(value: string) returns (r: Option<array<Byte>>)
    ensures r.None? <==> Decoded(value).None?
    ensures r.Some? ==> fresh(r.value) && Some(r.value[..]) == Decoded(value)
  {
    var padded := Replace(Replace(value, '-', '+'), '_', '/');
    var decoded := Atob(padded + Equals(Missing(|padded|)));
    if decoded.None? {
      return None;
    }
    var binary := Binary(decoded.value);
    var bytes := new Byte[|binary|](_ => 0);
    for i := 0 to |binary|
      invariant forall j :: 0 <= j < i ==> bytes[j] == decoded.value[j]
    {
      bytes[i] := binary[i] as nat;
    }
    assert bytes[..] == decoded.value;
    r := Some(bytes);
  }

  // ---- Shape of the encoded text -------------------------------------------

  predicate UrlChar(c: char) {
    'A' <= c <= 'Z' || 'a' <= c <= 'z' || '0' <= c <= '9' || c == '-' || c == '_'
  }

  function ToUrl(s: string): (r: string)
    ensures |r| == |s|
  {
    Replace(Replace(s, '+', '-'), '/', '_')
  }

  function FromUrl(s: string): (r: string)
    ensures |r| == |s|
  {
    Replace(Replace(s, '-', '+'), '_', '/')
  }

  /** `btoa` without its padding. */
  function Body(b: seq<Byte>): string {
    if b == [] then ""
    else if |b| == 1 then Pair(b[0])
    else if |b| == 2 then Triple(b[0], b[1])
    else Quad(b[0], b[1], b[2]) + Body(b[3..])
  }

  ghost predicate AllIn(s: string) {
    forall c :: c in s ==> InAlphabet(c)
  }

  /** What the bits of the last character leave unused are zero. */
  predicate TrailingZero(s: string) {
    && (|s| % 4 == 2 ==> FromChar(s[|s| - 1]) % 16 == 0)
    && (|s| % 4 == 3 ==> FromChar(s[|s| - 1]) % 4 == 0)
  }

  /** Bits regrouped by six and back by eight. */
  lemma FirstByte(x: nat, y: nat)
    requires x < 256 && y < 256
    ensures x / 4 * 4 + (x % 4 * 16 + y / 16) / 16 == x
  {
    assert (x % 4 * 16 + y / 16) / 16 == x % 4;
  }

  lemma SecondByte(x: nat, y: nat, z: nat)
    requires x < 256 && y < 256 && z < 256
    ensures (x % 4 * 16 + y / 16) % 16 * 16 + (y % 16 * 4 + z / 64) / 4 == y
  {
    assert (x % 4 * 16 + y / 16) % 16 == y / 16;
    assert (y % 16 * 4 + z / 64) / 4 == y % 16;
  }

  lemma ThirdByte(y: nat, z: nat)
    requires y < 256 && z < 256
    ensures (y % 16 * 4 + z / 64) % 4 * 64 + z % 64 == z
  {
    assert (y % 16 * 4 + z / 64) % 4 == z / 64;
  }

  /** And the other way round. */
  lemma FirstSextets(p: nat, q: nat, y: nat)
    requires p < 64 && q < 64 && y < 16
    ensures (p * 4 + q / 16) / 4 == p
    ensures (p * 4 + q / 16) % 4 * 16 == q / 16 * 16
    ensures (q % 16 * 16 + y) / 16 == q % 16
  {
  }

  lemma LastSextets(q: nat, r: nat, s: nat)
    requires q < 64 && r < 64 && s < 64
    ensures (q % 16 * 16 + r / 4) % 16 * 4 == r / 4 * 4
    ensures (r % 4 * 64 + s) / 64 == r % 4 && (r % 4 * 64 + s) % 64 == s
  {
  }

  lemma AllInConcat(a: string, b: string)
    ensures AllIn(a + b) <==> AllIn(a) && AllIn(b)
  {
    assert forall c :: c in a + b <==> c in a || c in b;
  }

  lemma PairShape(x: Byte)
    ensures AllIn(Pair(x)) && TrailingZero(Pair(x)) && Decode(Pair(x)) == [x]
  {
    ToCharFromChar(x / 4);
    ToCharFromChar(x % 4 * 16);
    FirstByte(x, 0);
  }

  lemma TripleShape(x: Byte, y: Byte)
    ensures AllIn(Triple(x, y)) && TrailingZero(Triple(x, y)) && Decode(Triple(x, y)) == [x, y]
  {
    ToCharFromChar(x / 4);
    ToCharFromChar(x % 4 * 16 + y / 16);
    ToCharFromChar(y % 16 * 4);
    FirstByte(x, y);
    SecondByte(x, y, 0);
  }

  lemma QuadShape(x: Byte, y: Byte, z: Byte)
    ensures AllIn(Quad(x, y, z))
    ensures var q := Quad(x, y, z);
      Bytes3(FromChar(q[0]), FromChar(q[1]), FromChar(q[2]), FromChar(q[3])) == [x, y, z]
  {
    ToCharFromChar(x / 4);
    ToCharFromChar(x % 4 * 16 + y / 16);
    ToCharFromChar(y % 16 * 4 + z / 64);
    ToCharFromChar(z % 64);
    BytesOf(x, y, z);
  }

  lemma BytesOf(x: Byte, y: Byte, z: Byte)
    ensures Bytes3(x / 4, x % 4 * 16 + y / 16, y % 16 * 4 + z / 64, z % 64) == [x, y, z]
  {
    FirstByte(x, y);
    SecondByte(x, y, z);
    ThirdByte(y, z);
  }

  /** Four characters at a time. */
  lemma DecodeQuad(q: string, u: string)
    requires |q| == 4
    ensures Decode(q + u) == Bytes3(FromChar(q[0]), FromChar(q[1]), FromChar(q[2]), FromChar(q[3])) + Decode(u)
  {
    var s := q + u;
    assert s[4..] == u;
    assert s[0] == q[0] && s[1] == q[1] && s[2] == q[2] && s[3] == q[3];
  }

  lemma QuadTrailing(q: string, u: string)
    requires |q| == 4
    ensures |q + u| % 4 == |u| % 4 && (TrailingZero(q + u) <==> TrailingZero(u))
  {
    assert u != "" ==> (q + u)[|q + u| - 1] == u[|u| - 1];
  }

  /** Characters needed for `n` bytes. */
  function BodySize(n: nat): nat {
    (n * 4 + 2) / 3
  }

  lemma SizeStep(n: nat)
    requires n > 2
    ensures BodySize(n) == 4 + BodySize(n - 3)
  {
    assert n * 4 + 2 == (n - 3) * 4 + 2 + 12;
  }

  lemma {:induction false} BodyLength(b: seq<Byte>)
    ensures |Body(b)| == BodySize(|b|) && |Body(b)| % 4 != 1
  {
    if |b| > 2 {
      BodyLength(b[3..]);
      SizeStep(|b|);
      assert |Body(b)| == 4 + |Body(b[3..])|;
    } else {
      assert |Body(b)| == if b == [] then 0 else |b| + 1;
    }
  }

  lemma ShortBody(b: seq<Byte>)
    requires |b| <= 2
    ensures AllIn(Body(b)) && TrailingZero(Body(b)) && Decode(Body(b)) == b
  {
    if |b| == 1 {
      PairShape(b[0]);
      assert b == [b[0]];
    } else if |b| == 2 {
      TripleShape(b[0], b[1]);
      assert b == [b[0], b[1]];
    }
  }

  lemma {:induction false} BodyShape(b: seq<Byte>)
    ensures AllIn(Body(b)) && TrailingZero(Body(b)) && Decode(Body(b)) == b
  {
    if |b| <= 2 {
      ShortBody(b);
    } else {
      var q, u := Quad(b[0], b[1], b[2]), Body(b[3..]);
      BodyShape(b[3..]);
      QuadShape(b[0], b[1], b[2]);
      DecodeQuad(q, u);
      QuadTrailing(q, u);
      AllInConcat(q, u);
      assert b == [b[0], b[1], b[2]] + b[3..];
    }
  }

  /** The padding `btoa` writes is the padding the length of the body needs. */
  lemma {:induction false} BtoaIsPaddedBody(b: seq<Byte>)
    ensures Btoa(b) == Body(b) + Equals(Missing(|Body(b)|))
  {
    if |b| > 2 {
      BtoaIsPaddedBody(b[3..]);
      PadQuad(Quad(b[0], b[1], b[2]), Body(b[3..]));
    } else {
      assert Equals(2) == "==" && Equals(1) == "=" && Equals(0) == "";
    }
  }

  lemma PadQuad(q: string, u: string)
    requires |q| == 4
    ensures q + (u + Equals(Missing(|u|))) == q + u + Equals(Missing(|q + u|))
  {
    assert Missing(|q + u|) == Missing(|u|);
  }

  lemma {:induction false} DropEquals(t: string, n: nat)
    requires forall c :: c in t ==> c != '='
    ensures DropPadding(t + Equals(n)) == t
    decreases n
  {
    var s := t + Equals(n);
    if n == 0 {
      assert s == t;
      assert t != "" ==> t[|t| - 1] in t;
    } else {
      assert s[|s| - 1] == '=' && s[..|s| - 1] == t + Equals(n - 1);
      DropEquals(t, n - 1);
    }
  }

  lemma UrlInverse(s: string)
    requires AllIn(s)
    ensures FromUrl(ToUrl(s)) == s
    ensures forall c :: c in ToUrl(s) ==> UrlChar(c)
  {
    var u := ToUrl(s);
    forall i | 0 <= i < |s|
      ensures FromUrl(u)[i] == s[i] && UrlChar(u[i])
    {
      assert s[i] in s;
    }
  }

  lemma EncodedIsBody(b: seq<Byte>)
    ensures Encoded(b) == ToUrl(Body(b)) && AllIn(Body(b)) && FromUrl(Encoded(b)) == Body(b)
    ensures forall c :: c in Encoded(b) ==> UrlChar(c)
  {
    var t := Body(b);
    var n := Missing(|t|);
    BodyLength(b);
    BodyShape(b);
    BtoaIsPaddedBody(b);
    UrlInverse(t);
    assert forall c :: c in ToUrl(t) ==> c != '=';
    assert ToUrl(t + Equals(n)) == ToUrl(t) + Equals(n);
    DropEquals(ToUrl(t), n);
  }

  /** The encoded text uses the url alphabet only, and the padding computed from
      its length restores exactly what `btoa` wrote, a multiple of four long. */
  lemma EncodedShape(b: seq<Byte>)
    ensures forall c :: c in Encoded(b) ==> UrlChar(c)
    ensures |Encoded(b)| == BodySize(|b|)
    ensures FromUrl(Encoded(b)) + Equals(Missing(|Encoded(b)|)) == Btoa(b) && |Btoa(b)| % 4 == 0
  {
    BodyLength(b);
    BodyShape(b);
    BtoaIsPaddedBody(b);
    EncodedIsBody(b);
  }

  // ---- Decoding what was encoded -------------------------------------------

  lemma {:induction false} StripClean(s: string)
    requires forall c :: c in s ==> InAlphabet(c) || c == '='
    ensures Strip(s) == s
  {
    if s != "" {
      assert s[0] in s && forall c :: c in s[1..] ==> c in s;
      StripClean(s[1..]);
    }
  }

  lemma UnpadPadded(t: string)
    requires AllIn(t) && |t| % 4 != 1
    ensures Unpad(t + Equals(Missing(|t|))) == t
  {
    var n := Missing(|t|);
    var s := t + Equals(n);
    assert |s| % 4 == 0;
    if n == 0 {
      assert s == t;
      assert t != "" ==> t[|t| - 1] in t;
    } else {
      assert s[|s| - 1] == '=';
      assert t[|t| - 1] in t;
      assert s[|t| - 1] == t[|t| - 1];
      assert s[..|t|] == t;
    }
  }

  /** `atob` sees through the padding a body needs. */
  lemma AtobPadded(t: string)
    requires AllIn(t) && |t| % 4 != 1
    ensures Atob(t + Equals(Missing(|t|))) == Some(Decode(t))
  {
    var s := t + Equals(Missing(|t|));
    assert forall c :: c in s ==> c in t || c == '=';
    StripClean(s);
    UnpadPadded(t);
  }

  /** Every byte sequence survives encoding and decoding. */
  lemma DecodeEncoded(b: seq<Byte>)
    ensures Decoded(Encoded(b)) == Some(b)
  {
    EncodedIsBody(b);
    BodyLength(b);
    BodyShape(b);
    AtobPadded(Body(b));
  }

  // ---- Which texts are encodings -------------------------------------------

  /** Url alphabet, a possible length, no stray bits. */
  ghost predicate CanonicalText(s: string) {
    && (forall c :: c in s ==> UrlChar(c))
    && |s| % 4 != 1
    && AllIn(FromUrl(s)) && TrailingZero(FromUrl(s))
  }

  lemma FromUrlInverse(s: string)
    requires forall c :: c in s ==> UrlChar(c)
    ensures AllIn(FromUrl(s)) && ToUrl(FromUrl(s)) == s
  {
    var t := FromUrl(s);
    forall i | 0 <= i < |s|
      ensures InAlphabet(t[i]) && ToUrl(t)[i] == s[i]
    {
      assert s[i] in s;
    }
  }

  lemma Chars(t: string, i: nat)
    requires AllIn(t) && i < |t|
    ensures ToChar(FromChar(t[i])) == t[i]
  {
    assert t[i] in t;
  }

  lemma PairOf(p: Sextet, q: Sextet)
    requires q % 16 == 0
    ensures Body(Bytes1(p, q)) == [ToChar(p), ToChar(q)]
  {
    FirstSextets(p, q, 0);
    assert Body(Bytes1(p, q)) == Pair(Bytes1(p, q)[0]);
  }

  lemma PairDecode(t: string)
    requires AllIn(t) && |t| == 2 && TrailingZero(t)
    ensures Body(Decode(t)) == t
  {
    Chars(t, 0);
    Chars(t, 1);
    PairOf(FromChar(t[0]), FromChar(t[1]));
  }

  lemma TripleOf(p: Sextet, q: Sextet, r: Sextet)
    requires r % 4 == 0
    ensures Body(Bytes2(p, q, r)) == [ToChar(p), ToChar(q), ToChar(r)]
  {
    FirstSextets(p, q, r / 4);
    LastSextets(q, r, 0);
    assert Body(Bytes2(p, q, r)) == Triple(Bytes2(p, q, r)[0], Bytes2(p, q, r)[1]);
  }

  lemma TripleDecode(t: string)
    requires AllIn(t) && |t| == 3 && TrailingZero(t)
    ensures Body(Decode(t)) == t
  {
    Chars(t, 0);
    Chars(t, 1);
    Chars(t, 2);
    TripleOf(FromChar(t[0]), FromChar(t[1]), FromChar(t[2]));
  }

  lemma QuadDecode(q: string)
    requires AllIn(q) && |q| == 4
    ensures var b := Bytes3(FromChar(q[0]), FromChar(q[1]), FromChar(q[2]), FromChar(q[3]));
      |b| == 3 && Quad(b[0], b[1], b[2]) == q
  {
    Chars(q, 0);
    Chars(q, 1);
    Chars(q, 2);
    Chars(q, 3);
    var p, r, s, t := FromChar(q[0]), FromChar(q[1]), FromChar(q[2]), FromChar(q[3]);
    FirstSextets(p, r, s / 4);
    LastSextets(r, s, t);
    assert q == [ToChar(p), ToChar(r), ToChar(s), ToChar(t)];
  }

  lemma BodyQuad(q: seq<Byte>, b: seq<Byte>)
    requires |q| == 3
    ensures Body(q + b) == Quad(q[0], q[1], q[2]) + Body(b)
  {
    assert (q + b)[3..] == b;
  }

  lemma {:induction false} BodyDecode(t: string)
    requires AllIn(t) && |t| % 4 != 1 && TrailingZero(t)
    ensures Body(Decode(t)) == t
    decreases |t|
  {
    if |t| == 2 {
      PairDecode(t);
    } else if |t| == 3 {
      TripleDecode(t);
    } else if |t| >= 4 {
      var q, u := t[..4], t[4..];
      assert t == q + u;
      AllInConcat(q, u);
      DecodeQuad(q, u);
      QuadTrailing(q, u);
      QuadDecode(q);
      BodyDecode(u);
      BodyQuad(Bytes3(FromChar(q[0]), FromChar(q[1]), FromChar(q[2]), FromChar(q[3])), Decode(u));
    }
  }

  /** A text decodes to bytes that encode to it exactly when it is canonical. */
  lemma CanonicalTexts(s: string)
    ensures (exists b :: Decoded(s) == Some(b) && Encoded(b) == s) <==> CanonicalText(s)
  {
    if b :| Decoded(s) == Some(b) && Encoded(b) == s {
      EncodedIsBody(b);
      BodyLength(b);
      BodyShape(b);
    }
    if CanonicalText(s) {
      var t := FromUrl(s);
      FromUrlInverse(s);
      AtobPadded(t);
      BodyDecode(t);
      EncodedIsBody(Decode(t));
      assert Decoded(s) == Some(Decode(t)) && Encoded(Decode(t)) == s;
    }
  }

  /** Other texts decode too: stray bits are dropped without complaint. */
  lemma StrayBitsAccepted()
    ensures Decoded("QR") == Decoded("QQ") == Some([65])
  {
    var n := Missing(2);
    assert FromUrl("QR") == "QR" && FromUrl("QQ") == "QQ";
    AtobPadded("QR");
    AtobPadded("QQ");
  }
}
