/** A writer's text is as short as a text can be that reads back as the value:
    every character that has a short escape gets it, and nothing is escaped that
    need not be. Python's texts keep to characters below U+007F. */
module JsonShortest {
  import opened Prelude
  import opened Json
  import opened JsonReader
  import opened JsonDecoding

  /** What a dialect's texts are made of. */
  predicate Allowed(d: Dialect, t: string) {
    d.Python? ==> forall c :: c in t ==> c as nat < 0x7F
  }

  lemma AllowedBehind(d: Dialect, t: string, n: nat)
    requires Allowed(d, t) && n <= |t|
    ensures Allowed(d, t[n..])
  {
    assert forall i :: n <= i < |t| ==> t[i] in t;
  }

  // ---- Characters ----------------------------------------------------------

  /** Nothing that reads as the character is shorter than its escape. */
  lemma CharShortest(d: Dialect, t: string)
    requires Allowed(d, t) && ReadChar(t).Some?
    ensures var r := ReadChar(t).value; |Escape(d, r.0)| + |r.1| <= |t|
    ensures exists n :: 0 <= n <= |t| && ReadChar(t).value.1 == t[n..]
  {
    EscapeShape(d, ReadChar(t).value.0);
    assert t[0] in t;
    if |t| > 1 && t[0] == '\\' && t[1] == 'u' {
      UnitsShortest(d, t);
    } else if t[0] == '\\' {
      assert ReadChar(t).value.1 == t[2..];
    } else {
      assert ReadChar(t).value.1 == t[1..];
    }
  }

  lemma UnitsShortest(d: Dialect, t: string)
    requires ReadUnits(t).Some?
    ensures var r := ReadUnits(t).value; |Escape(d, r.0)| + |r.1| <= |t|
    ensures exists n :: 0 <= n <= |t| && ReadUnits(t).value.1 == t[n..]
  {
    var r := ReadUnits(t).value;
    EscapeShape(d, r.0);
    if r.0 as nat < 0x10000 {
      assert r.1 == t[6..];
    } else {
      assert r.1 == t[6..][6..];
      assert r.1 == t[12..];
    }
  }

  predicate LowerHex(t: string) {
    forall c :: c in t ==> !('A' <= c <= 'F')
  }

  lemma PairUnique(c: char, t: string)
    requires |t| == 12 && LowerHex(t) && c as nat >= 0x10000 && ReadUnits(t) == Some((c, ""))
    ensures t == "\\u" + Hex4(HighSurrogate(c)) + "\\u" + Hex4(LowSurrogate(c))
  {
    var a, b := t[..6], t[6..];
    assert forall x :: x in a || x in b ==> x in t;
    assert ReadUnit(a).value.0 == ReadUnit(t).value.0 && ReadUnit(t).value.1 == b;
    UnitUnique(a, ReadUnit(t).value.0);
    UnitUnique(b, ReadUnit(b).value.0);
    assert ReadUnit(t).value.0 == HighSurrogate(c) && ReadUnit(b).value.0 == LowSurrogate(c);
    assert t == a + b;
    Assoc("\\u" + Hex4(HighSurrogate(c)), "\\u", Hex4(LowSurrogate(c)));
  }

  /** A text of the escape's length that reads as the character, in lower-case
      hex, is the escape. */
  lemma EscapeUnique(d: Dialect, c: char, t: string)
    requires Allowed(d, t) && ReadChar(t) == Some((c, "")) && |t| <= |Escape(d, c)|
    requires |t| > 2 ==> LowerHex(t)
    ensures t == Escape(d, c)
  {
    CharShortest(d, t);
    EscapeShape(d, c);
    if |t| == 6 {
      UnitUnique(t, c as nat);
    } else if |t| == 12 {
      PairUnique(c, t);
    } else {
      ShortUnique(d, c, t);
    }
  }

  lemma ShortUnique(d: Dialect, c: char, t: string)
    requires ReadChar(t) == Some((c, "")) && |t| == |Escape(d, c)| <= 2
    ensures t == Escape(d, c)
  {
    EscapeShape(d, c);
    if |t| == 1 {
      assert t == [t[0]];
    } else {
      assert t == [t[0], t[1]];
    }
  }

  lemma UnitUnique(t: string, n: nat)
    requires |t| == 6 && LowerHex(t) && ReadUnit(t).Some? && ReadUnit(t).value.0 == n
    ensures n < 0x10000 && t == "\\u" + Hex4(n)
  {
    assert t[2] in t && t[3] in t && t[4] in t && t[5] in t;
    HexUnique(t[2]);
    HexUnique(t[3]);
    HexUnique(t[4]);
    HexUnique(t[5]);
    HexParts(HexValue(t[2]), HexValue(t[3]), HexValue(t[4]), HexValue(t[5]));
    assert t == [t[0], t[1], t[2], t[3], t[4], t[5]];
  }

  lemma HexUnique(c: char)
    requires IsHex(c) && !('A' <= c <= 'F')
    ensures HexDigit(HexValue(c)) == c
  {
  }

  lemma HexParts(a: nat, b: nat, c: nat, d: nat)
    requires a < 16 && b < 16 && c < 16 && d < 16
    ensures var n := a * 4096 + b * 256 + c * 16 + d;
      n / 4096 == a && n / 256 % 16 == b && n / 16 % 16 == c && n % 16 == d
  {
    var n := a * 4096 + b * 256 + c * 16 + d;
    assert n / 16 == a * 256 + b * 16 + c && n / 256 == a * 16 + b;
  }

  // ---- Strings -------------------------------------------------------------

  lemma {:induction false} BodyShortest(d: Dialect, t: string)
    requires Allowed(d, t) && ReadBody(t).Some?
    ensures var r := ReadBody(t).value;
      |EscapeAll(d, r.0)| + 1 + |r.1| <= |t| && Allowed(d, r.1)
    decreases |t|
  {
    if t[0] == '\"' {
      AllowedBehind(d, t, 1);
    } else {
      CharShortest(d, t);
      var c := ReadChar(t).value;
      var n :| 0 <= n <= |t| && c.1 == t[n..];
      AllowedBehind(d, t, n);
      BodyShortest(d, c.1);
      var r := ReadBody(t).value;
      assert r.0[0] == c.0 && r.0[1..] == ReadBody(c.1).value.0;
    }
  }

  lemma StringShortest(d: Dialect, t: string)
    requires Allowed(d, t) && ReadString(t).Some?
    ensures var r := ReadString(t).value; |Quote(d, r.0)| + |r.1| <= |t| && Allowed(d, r.1)
  {
    AllowedBehind(d, t, 1);
    BodyShortest(d, t[1..]);
  }

  // ---- Numbers -------------------------------------------------------------

  /** Digits without a leading zero are the digits of their value. */
  lemma {:induction false} DigitsOfValue(s: string)
    requires s != "" && AllDigits(s) && (|s| > 1 ==> s[0] != '0')
    ensures Digits(ValueOf(s)) == s && (s[0] != '0' ==> ValueOf(s) > 0)
  {
    var n := |s| - 1;
    if n == 0 {
      assert s[..0] == "" && s == [s[0]];
    } else {
      DigitsOfValue(s[..n]);
      assert s == s[..n] + [s[n]];
    }
  }

  lemma NumberShortest(d: Dialect, t: string)
    requires Allowed(d, t) && ReadNumber(t).Some?
    ensures var r := ReadNumber(t).value; |Decimal(r.0)| + |r.1| <= |t| && Allowed(d, r.1)
  {
    var minus := t[0] == '-';
    var s := if minus then t[1..] else t;
    var n := DigitRun(s);
    DigitsOfValue(s[..n]);
    AllowedBehind(d, t, if minus then 1 + n else n);
    assert s[n..] == t[if minus then 1 + n else n..];
  }

  // ---- Values --------------------------------------------------------------

  lemma KeywordShortest(d: Dialect, t: string)
    requires Allowed(d, t) && ReadKeyword(t).Some?
    ensures var r := ReadKeyword(t).value; |Write(d, r.0)| + |r.1| <= |t| && Allowed(d, r.1)
  {
    AllowedBehind(d, t, |t| - |ReadKeyword(t).value.1|);
  }

  /** No text the dialect may use and that reads as the value is shorter. */
  lemma {:induction false} ValueShortest(d: Dialect, t: string)
    requires Allowed(d, t) && ReadValue(t).Some?
    ensures var r := ReadValue(t).value; |Write(d, r.0)| + |r.1| <= |t| && Allowed(d, r.1)
    decreases |t|, 0
  {
    if t[0] == '\"' {
      StringShortest(d, t);
    } else if t[0] == '[' {
      AllowedBehind(d, t, 1);
      ItemsShortest(d, t[1..], true);
    } else if t[0] == '{' {
      AllowedBehind(d, t, 1);
      EntriesShortest(d, t[1..], true);
    } else if t[0] == '-' || IsDigit(t[0]) {
      NumberShortest(d, t);
    } else {
      KeywordShortest(d, t);
    }
  }

  lemma {:induction false} ItemsShortest(d: Dialect, t: string, first: bool)
    requires Allowed(d, t) && ReadItems(t, first).Some?
    ensures var r := ReadItems(t, first).value; |WriteItems(d, r.0, first)| + |r.1| <= |t| && Allowed(d, r.1)
    decreases |t|, 1
  {
    AllowedBehind(d, t, 1);
    if t[0] != ']' {
      var s := if first then t else t[1..];
      ValueShortest(d, s);
      var head := ReadValue(s).value;
      ItemsShortest(d, head.1, false);
      var r := ReadItems(t, first).value;
      assert r.0[0] == head.0 && r.0[1..] == ReadItems(head.1, false).value.0;
    }
  }

  lemma {:induction false} MemberShortest(d: Dialect, t: string)
    requires Allowed(d, t) && ReadMember(t).Some?
    ensures var r := ReadMember(t).value;
      |Quote(d, r.0.key)| + 1 + |Write(d, r.0.value)| + |r.1| <= |t| && Allowed(d, r.1)
    decreases |t|, 1
  {
    StringShortest(d, t);
    var key := ReadString(t).value;
    AllowedBehind(d, key.1, 1);
    ValueShortest(d, key.1[1..]);
  }

  lemma {:induction false} EntriesShortest(d: Dialect, t: string, first: bool)
    requires Allowed(d, t) && ReadEntries(t, first).Some?
    ensures var r := ReadEntries(t, first).value; |WriteEntries(d, r.0, first)| + |r.1| <= |t| && Allowed(d, r.1)
    decreases |t|, 2
  {
    AllowedBehind(d, t, 1);
    if t[0] != '}' {
      var s := if first then t else t[1..];
      MemberShortest(d, s);
      var head := ReadMember(s).value;
      EntriesShortest(d, head.1, false);
      var r := ReadEntries(t, first).value;
      assert r.0[0] == head.0 && r.0[1..] == ReadEntries(head.1, false).value.0;
    }
  }

  /** The canonical text reads as the sorted value, and no other text that the
      dialect may use and that does so is shorter. */
  lemma CanonicalShortest(d: Dialect, v: Json, t: string)
    requires Allowed(d, t) && ReadValue(t) == Some((SortDeep(d, v), ""))
    ensures ReadValue(Canonical(d, v)) == Some((SortDeep(d, v), "")) && |Canonical(d, v)| <= |t|
  {
    ReadBack(d, SortDeep(d, v), "");
    assert Canonical(d, v) + "" == Canonical(d, v);
    ValueShortest(d, t);
  }
}
