/** The codec against RFC 4648 itself: its url alphabet (section 5), its
    regrouping of bits, and the texts that decoding refuses. */
module Base64Facts {
  import opened Prelude
  import opened Base64Url

  // ---- The alphabet --------------------------------------------------------

  const UPPER := "ABCDEFGHIJKLMNOPQRSTUVWXYZ"
  const SMALL := "abcdefghijklmnopqrstuvwxyz"
  const URL_ALPHABET := UPPER + SMALL + "0123456789" + "-_"

  lemma LetterCodes(k: nat)
    requires k < 26
    ensures UPPER[k] as nat == 65 + k && SMALL[k] as nat == 97 + k
  {
  }

  lemma DigitCodes(k: nat)
    requires k < 10
    ensures "0123456789"[k] as nat == 48 + k
  {
  }

  lemma AlphabetCodes(n: Sextet)
    ensures |URL_ALPHABET| == 64
    ensures URL_ALPHABET[n] == if n == 62 then '-' else if n == 63 then '_' else ToChar(n)
  {
    assert |UPPER| == 26 == |SMALL|;
    if n < 26 {
      LetterCodes(n);
    } else if n < 52 {
      LetterCodes(n - 26);
    } else if n < 62 {
      DigitCodes(n - 52);
    }
  }

  lemma ToUrlChar(n: Sextet)
    ensures |URL_ALPHABET| == 64 && ToUrl([ToChar(n)]) == [URL_ALPHABET[n]]
  {
    AlphabetCodes(n);
    var c := [ToChar(n)];
    assert ToUrl(c)[0] == URL_ALPHABET[n];
  }

  // ---- Bits ----------------------------------------------------------------

  /** The last `k` bits of a number, most significant first. */
  function Bits(n: nat, k: nat): (r: seq<bool>)
    ensures |r| == k
  {
    if k == 0 then [] else Bits(n / 2, k - 1) + [n % 2 == 1]
  }

  function Pow2(k: nat): nat {
    if k == 0 then 1 else 2 * Pow2(k - 1)
  }

  lemma Halved(high: nat, p: nat, low: nat)
    ensures (high * (2 * p) + low) / 2 == high * p + low / 2
    ensures (high * (2 * p) + low) % 2 == low % 2
  {
    var n := high * p;
    assert high * (2 * p) == 2 * n;
  }

  lemma {:induction false} BitsJoin(high: nat, low: nat, j: nat, k: nat)
    requires low < Pow2(k)
    ensures Bits(high * Pow2(k) + low, j + k) == Bits(high, j) + Bits(low, k)
  {
    if k > 0 {
      Halved(high, Pow2(k - 1), low);
      BitsJoin(high, low / 2, j, k - 1);
      AssocSeq(Bits(high, j), Bits(low / 2, k - 1), [low % 2 == 1]);
    }
  }

  function BitsOfBytes(b: seq<Byte>): (r: seq<bool>)
    ensures |r| == 8 * |b|
  {
    if b == [] then [] else Bits(b[0], 8) + BitsOfBytes(b[1..])
  }

  function BitsOfSextets(v: seq<Sextet>): (r: seq<bool>)
    ensures |r| == 6 * |v|
  {
    if v == [] then [] else Bits(v[0], 6) + BitsOfSextets(v[1..])
  }

  function Zeros(n: nat): (r: seq<bool>)
    ensures |r| == n
  {
    seq(n, i => false)
  }

  lemma {:induction false} ZeroBits(k: nat)
    ensures Bits(0, k) == Zeros(k)
  {
    if k > 0 {
      ZeroBits(k - 1);
      assert Zeros(k) == Zeros(k - 1) + [false];
    }
  }

  // ---- The encoding --------------------------------------------------------

  /** The characters with these numbers. */
  ghost predicate Spells(s: string, v: seq<Sextet>) {
    |s| == |v| && |URL_ALPHABET| == 64 && forall i :: 0 <= i < |s| ==> s[i] == URL_ALPHABET[v[i]]
  }

  function Sextets(b: seq<Byte>): seq<Sextet> {
    if b == [] then []
    else if |b| == 1 then [b[0] / 4] + [b[0] % 4 * 16]
    else if |b| == 2 then [b[0] / 4] + ([b[0] % 4 * 16 + b[1] / 16] + [b[1] % 16 * 4])
    else
      [b[0] / 4] + ([b[0] % 4 * 16 + b[1] / 16] + ([b[1] % 16 * 4 + b[2] / 64] + ([b[2] % 64] + Sextets(b[3..]))))
  }

  lemma {:induction false} BodySpelled(b: seq<Byte>)
    ensures |Body(b)| == |Sextets(b)|
    ensures forall i :: 0 <= i < |Body(b)| ==> Body(b)[i] == ToChar(Sextets(b)[i])
  {
    if |b| > 2 {
      BodySpelled(b[3..]);
    }
  }

  lemma SextetFirst(p: Sextet, v: seq<Sextet>)
    ensures BitsOfSextets([p] + v) == Bits(p, 6) + BitsOfSextets(v)
    ensures BitsOfSextets([p]) == Bits(p, 6)
  {
    assert ([p] + v)[1..] == v && [p][1..] == [];
  }

  lemma ByteFirst(x: Byte, b: seq<Byte>)
    ensures BitsOfBytes([x] + b) == Bits(x, 8) + BitsOfBytes(b)
    ensures BitsOfBytes([x]) == Bits(x, 8)
  {
    assert ([x] + b)[1..] == b && [x][1..] == [];
  }

  lemma Powers()
    ensures Pow2(2) == 4 && Pow2(4) == 16 && Pow2(6) == 64
  {
    assert Pow2(0) == 1 && Pow2(1) == 2 && Pow2(3) == 8 && Pow2(5) == 32;
  }

  lemma Regroup1(a: seq<bool>, a': seq<bool>, rest: seq<bool>)
    ensures a + (a' + rest) == (a + a') + rest
  {
  }

  lemma Regroup2(a: seq<bool>, a': seq<bool>, b: seq<bool>, b': seq<bool>, rest: seq<bool>)
    ensures a + ((a' + b) + (b' + rest)) == (a + a') + ((b + b') + rest)
  {
    Regroup1(a, a', b + (b' + rest));
    Regroup1(b, b', rest);
    Regroup1(a', b, b' + rest);
  }

  lemma Regroup3(
      a: seq<bool>, a': seq<bool>, b: seq<bool>, b': seq<bool>, c: seq<bool>, c': seq<bool>, rest: seq<bool>)
    ensures a + ((a' + b) + ((b' + c) + (c' + rest))) == (a + a') + ((b + b') + ((c + c') + rest))
  {
    Regroup2(a, a', b, b', c + (c' + rest));
    Regroup1(b', c, c' + rest);
    Regroup1(c, c', rest);
  }

  lemma SextetHalves(high: nat, low: nat, j: nat, k: nat, n: nat)
    requires j + k == 6 && (k == 2 || k == 4) && low < (if k == 2 then 4 else 16)
    requires n == high * (if k == 2 then 4 else 16) + low
    ensures Bits(n, 6) == Bits(high, j) + Bits(low, k)
  {
    Powers();
    BitsJoin(high, low, j, k);
  }

  lemma ByteHalves(x: Byte)
    ensures Bits(x, 8) == Bits(x / 4, 6) + Bits(x % 4, 2)
    ensures Bits(x, 8) == Bits(x / 16, 4) + Bits(x % 16, 4)
    ensures Bits(x, 8) == Bits(x / 64, 2) + Bits(x % 64, 6)
  {
    Powers();
    BitsJoin(x / 4, x % 4, 6, 2);
    BitsJoin(x / 16, x % 16, 4, 4);
    BitsJoin(x / 64, x % 64, 2, 6);
  }

  lemma OneByte(x: Byte)
    ensures BitsOfSextets(Sextets([x])) == BitsOfBytes([x]) + Zeros(4)
  {
    ByteHalves(x);
    SextetHalves(x % 4, 0, 2, 4, x % 4 * 16);
    ZeroBits(4);
    SextetFirst(x / 4, [x % 4 * 16]);
    SextetFirst(x % 4 * 16, []);
    ByteFirst(x, []);
    Regroup1(Bits(x / 4, 6), Bits(x % 4, 2), Zeros(4));
  }

  lemma TwoFirst(p: Sextet, q: Sextet, r: Sextet)
    ensures BitsOfSextets([p] + ([q] + [r])) == Bits(p, 6) + (Bits(q, 6) + Bits(r, 6))
  {
    SextetFirst(p, [q] + [r]);
    SextetFirst(q, [r]);
    SextetFirst(r, []);
  }

  lemma PairBits(x: Byte, y: Byte)
    ensures Bits(x / 4, 6) + (Bits(x % 4 * 16 + y / 16, 6) + Bits(y % 16 * 4, 6))
         == Bits(x, 8) + (Bits(y, 8) + Zeros(2))
  {
    ByteHalves(x);
    ByteHalves(y);
    SextetHalves(x % 4, y / 16, 2, 4, x % 4 * 16 + y / 16);
    SextetHalves(y % 16, 0, 4, 2, y % 16 * 4);
    ZeroBits(2);
    Regroup2(Bits(x / 4, 6), Bits(x % 4, 2), Bits(y / 16, 4), Bits(y % 16, 4), Zeros(2));
  }

  lemma TwoBytes(x: Byte, y: Byte)
    ensures BitsOfSextets(Sextets([x, y])) == BitsOfBytes([x, y]) + Zeros(2)
  {
    TwoFirst(x / 4, x % 4 * 16 + y / 16, y % 16 * 4);
    PairBits(x, y);
    ByteFirst(x, [y]);
    ByteFirst(y, []);
    assert [x, y] == [x] + [y];
    Regroup1(Bits(x, 8), Bits(y, 8), Zeros(2));
  }

  lemma FourFirst(p: Sextet, q: Sextet, r: Sextet, s: Sextet, v: seq<Sextet>)
    ensures BitsOfSextets([p] + ([q] + ([r] + ([s] + v))))
         == Bits(p, 6) + (Bits(q, 6) + (Bits(r, 6) + (Bits(s, 6) + BitsOfSextets(v))))
  {
    SextetFirst(p, [q] + ([r] + ([s] + v)));
    SextetFirst(q, [r] + ([s] + v));
    SextetFirst(r, [s] + v);
    SextetFirst(s, v);
  }

  lemma QuadBits(x: Byte, y: Byte, z: Byte, rest: seq<bool>)
    ensures Bits(x / 4, 6)
          + (Bits(x % 4 * 16 + y / 16, 6) + (Bits(y % 16 * 4 + z / 64, 6) + (Bits(z % 64, 6) + rest)))
         == Bits(x, 8) + (Bits(y, 8) + (Bits(z, 8) + rest))
  {
    ByteHalves(x);
    ByteHalves(y);
    ByteHalves(z);
    SextetHalves(x % 4, y / 16, 2, 4, x % 4 * 16 + y / 16);
    SextetHalves(y % 16, z / 64, 4, 2, y % 16 * 4 + z / 64);
    Regroup3(Bits(x / 4, 6), Bits(x % 4, 2), Bits(y / 16, 4), Bits(y % 16, 4), Bits(z / 64, 2), Bits(z % 64, 6), rest);
  }

  lemma ThreeBytes(x: Byte, y: Byte, z: Byte, v: seq<Sextet>)
    ensures var quad := [x / 4] + ([x % 4 * 16 + y / 16] + ([y % 16 * 4 + z / 64] + ([z % 64] + v)));
      BitsOfSextets(quad) == Bits(x, 8) + (Bits(y, 8) + (Bits(z, 8) + BitsOfSextets(v)))
  {
    FourFirst(x / 4, x % 4 * 16 + y / 16, y % 16 * 4 + z / 64, z % 64, v);
    QuadBits(x, y, z, BitsOfSextets(v));
  }

  lemma BytesFirst(x: Byte, y: Byte, z: Byte, b: seq<Byte>, more: seq<bool>)
    ensures BitsOfBytes([x, y, z] + b) + more
         == Bits(x, 8) + (Bits(y, 8) + (Bits(z, 8) + (BitsOfBytes(b) + more)))
  {
    assert [x, y, z] + b == [x] + ([y] + ([z] + b));
    ByteFirst(x, [y] + ([z] + b));
    ByteFirst(y, [z] + b);
    ByteFirst(z, b);
    var t := BitsOfBytes(b);
    Regroup1(Bits(z, 8), t, more);
    Regroup1(Bits(y, 8), Bits(z, 8) + t, more);
    Regroup1(Bits(x, 8), Bits(y, 8) + (Bits(z, 8) + t), more);
  }

  lemma SextetsFirst(x: Byte, y: Byte, z: Byte, rest: seq<Byte>)
    ensures Sextets([x, y, z] + rest)
         == [x / 4] + ([x % 4 * 16 + y / 16] + ([y % 16 * 4 + z / 64] + ([z % 64] + Sextets(rest))))
  {
    assert ([x, y, z] + rest)[3..] == rest;
  }

  lemma ThreeMore(x: Byte, y: Byte, z: Byte, rest: seq<Byte>)
    requires 6 * |Sextets(rest)| >= 8 * |rest|
    requires BitsOfSextets(Sextets(rest)) == BitsOfBytes(rest) + Zeros(6 * |Sextets(rest)| - 8 * |rest|)
    ensures var b := [x, y, z] + rest; var v := Sextets(b);
      6 * |v| - 8 * |b| == 6 * |Sextets(rest)| - 8 * |rest|
      && BitsOfSextets(v) == BitsOfBytes(b) + Zeros(6 * |v| - 8 * |b|)
  {
    SextetsFirst(x, y, z, rest);
    ThreeBytes(x, y, z, Sextets(rest));
    BytesFirst(x, y, z, rest, Zeros(6 * |Sextets(rest)| - 8 * |rest|));
  }

  lemma {:induction false} SextetBits(b: seq<Byte>)
    ensures 6 * |Sextets(b)| >= 8 * |b|
    ensures BitsOfSextets(Sextets(b)) == BitsOfBytes(b) + Zeros(6 * |Sextets(b)| - 8 * |b|)
  {
    if |b| == 1 {
      assert b == [b[0]];
      OneByte(b[0]);
    } else if |b| == 2 {
      assert b == [b[0], b[1]];
      TwoBytes(b[0], b[1]);
    } else if |b| > 2 {
      SextetBits(b[3..]);
      ThreeMore(b[0], b[1], b[2], b[3..]);
      assert b == [b[0], b[1], b[2]] + b[3..];
    }
  }

  /** The encoding is the text whose characters' numbers in the url alphabet hold
      the bits of the bytes, filled up with fewer than six zeros. */
  lemma EncodingRegroupsBits(b: seq<Byte>) returns (v: seq<Sextet>)
    ensures Spells(Encoded(b), v)
    ensures 0 <= 6 * |v| - 8 * |b| < 6
    ensures BitsOfSextets(v) == BitsOfBytes(b) + Zeros(6 * |v| - 8 * |b|)
  {
    v := Sextets(b);
    SextetBits(b);
    BodySpelled(b);
    EncodedIsBody(b);
    BodyLength(b);
    forall i | 0 <= i < |v|
      ensures |URL_ALPHABET| == 64 && Encoded(b)[i] == URL_ALPHABET[v[i]]
    {
      ToUrlChar(v[i]);
      assert ToUrl(Body(b))[i] == ToUrl([ToChar(v[i])])[0];
    }
    AlphabetCodes(0);
  }

  // ---- What decoding refuses -----------------------------------------------

  lemma {:induction false} StripNothing(s: string)
    requires forall c :: c in s ==> !IsSpace(c)
    ensures Strip(s) == s
  {
    if s != "" {
      assert s[0] in s && forall c :: c in s[1..] ==> c in s;
      StripNothing(s[1..]);
    }
  }

  /** Three missing characters cannot be made up for by padding. */
  lemma UnpadRestored(t: string)
    requires '=' !in t
    ensures Unpad(t + Equals(Missing(|t|))) == if |t| % 4 == 1 then t + "=" else t
  {
    var n := Missing(|t|);
    var s := t + Equals(n);
    assert n > 0 ==> s[|s| - 1] == '=';
    assert t != "" ==> t[|t| - 1] in t;
    if |t| % 4 == 1 {
      assert s[..|s| - 2] == t + "=";
    } else {
      assert n == 1 ==> s[|s| - 2] == t[|t| - 1];
      assert s[..|t|] == t;
    }
  }

  lemma AtobExactly(t: string)
    requires forall c :: c in t ==> !IsSpace(c) && c != '='
    ensures Atob(t + Equals(Missing(|t|))).Some? <==> |t| % 4 != 1 && forall c :: c in t ==> InAlphabet(c)
  {
    var s := t + Equals(Missing(|t|));
    assert forall c :: c in s ==> c in t || c == '=';
    StripNothing(s);
    UnpadRestored(t);
    if |t| % 4 == 1 {
      assert '=' in t + "=";
    }
  }

  lemma InUrlAlphabet(c: char)
    ensures c in URL_ALPHABET <==> UrlChar(c)
  {
    if UrlChar(c) {
      var n := if c == '-' then 62 else if c == '_' then 63 else FromChar(c);
      AlphabetCodes(n);
      assert URL_ALPHABET[n] == c;
    }
    if i :| 0 <= i < |URL_ALPHABET| && URL_ALPHABET[i] == c {
      assert |URL_ALPHABET| == 64;
      AlphabetCodes(i);
    }
  }

  /** Without white space and padding of its own a text is decoded exactly when
      its characters are in one of the two alphabets and its length is possible. */
  lemma DecodedExactly(s: string)
    requires forall c :: c in s ==> !IsSpace(c) && c != '='
    ensures Decoded(s).Some? <==>
      |s| % 4 != 1 && forall i :: 0 <= i < |s| ==> s[i] in URL_ALPHABET || s[i] == '+' || s[i] == '/'
  {
    var t := FromUrl(s);
    forall i | 0 <= i < |s|
      ensures InAlphabet(t[i]) <==> s[i] in URL_ALPHABET || s[i] == '+' || s[i] == '/'
      ensures !IsSpace(t[i]) && t[i] != '='
    {
      assert s[i] in s;
      InUrlAlphabet(s[i]);
    }
    AtobExactly(t);
    if forall i :: 0 <= i < |s| ==> InAlphabet(t[i]) {
      assert forall c :: c in t ==> InAlphabet(c);
    } else {
      var i :| 0 <= i < |s| && !InAlphabet(t[i]);
      assert t[i] in t;
    }
  }
}
