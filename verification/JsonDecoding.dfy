/** Whatever a writer writes, the reader reads back, in every dialect. Each
    lemma carries an arbitrary rest behind the text it reads, because numbers
    do not mark their own end. */
module JsonDecoding {
  import opened Prelude
  import opened Json
  import opened JsonReader

  lemma PrefixOfEqual(a: string, b: string, x: string, y: string)
    requires a + x == b + y && |a| == |b|
    ensures a == b && x == y
  {
    assert a == (a + x)[..|a|] && b == (b + y)[..|b|];
    assert x == (a + x)[|a|..] && y == (b + y)[|b|..];
  }

  lemma Assoc(a: string, b: string, c: string)
    ensures a + b + c == a + (b + c)
  {
  }

  lemma Front(a: string, x: string)
    ensures StartsWith(a + x, a) && (a + x)[|a|..] == x
  {
  }

  // ---- Numbers -------------------------------------------------------------

  ghost predicate NoDigitFirst(s: string) {
    s != [] ==> !IsDigit(s[0])
  }

  /** What can follow a value inside a canonical text. */
  ghost predicate Ends(s: string) {
    s != [] ==> s[0] in ",]}"
  }

  lemma {:induction false} DigitsRead(n: nat)
    ensures AllDigits(Digits(n)) && ValueOf(Digits(n)) == n
    ensures n > 0 ==> Digits(n)[0] != '0'
    ensures n == 0 ==> |Digits(n)| == 1
  {
    var r := Digits(n);
    if n < 10 {
      assert r[..|r| - 1] == [];
    } else {
      DigitsRead(n / 10);
      assert r[..|r| - 1] == Digits(n / 10);
    }
  }

  lemma NaturalReadBack(n: nat, s: string)
    requires NoDigitFirst(s)
    ensures ReadNatural(Digits(n) + s) == Some((n, s))
  {
    var a := Digits(n);
    DigitsRead(n);
    var k := DigitRun(a + s);
    assert forall i :: 0 <= i < |a| ==> (a + s)[i] == a[i];
    assert s != [] ==> (a + s)[|a|] == s[0];
    assert k == |a|;
    assert (a + s)[..|a|] == a && (a + s)[|a|..] == s;
  }

  lemma NumberReadBack(n: int, s: string)
    requires NoDigitFirst(s)
    ensures ReadNumber(Decimal(n) + s) == Some((n, s))
  {
    var a := Digits(if n < 0 then -n else n);
    DigitsRead(if n < 0 then -n else n);
    NaturalReadBack(if n < 0 then -n else n, s);
    if n < 0 {
      Assoc("-", a, s);
      Front("-", a + s);
    } else {
      assert (a + s)[0] == a[0];
    }
  }

  // ---- Strings -------------------------------------------------------------

  lemma HexSum(n: nat)
    ensures n == n / 4096 * 4096 + n / 256 % 16 * 256 + n / 16 % 16 * 16 + n % 16
  {
    assert n / 256 / 16 == n / 4096 && n / 16 / 16 == n / 256;
  }

  lemma HexDigitReadBack(n: nat)
    requires n < 16
    ensures IsHex(HexDigit(n)) && HexValue(HexDigit(n)) == n
  {
  }

  lemma UnitReadBack(n: nat, s: string)
    requires n < 0x10000
    ensures ReadUnit("\\u" + Hex4(n) + s) == Some((n, s))
  {
    var t := "\\u" + Hex4(n) + s;
    assert t[2] == Hex4(n)[0] && t[3] == Hex4(n)[1] && t[4] == Hex4(n)[2] && t[5] == Hex4(n)[3];
    HexDigitReadBack(n / 4096);
    HexDigitReadBack(n / 256 % 16);
    HexDigitReadBack(n / 16 % 16);
    HexDigitReadBack(n % 16);
    HexSum(n);
    assert t[6..] == s;
  }

  lemma EscapeShape(d: Dialect, c: char)
    ensures |Escape(d, c)| in {1, 2, 6, 12}
    ensures |Escape(d, c)| == 1 ==> Escape(d, c) == [c] && c != '\\' && c != '\"' && c as nat >= 0x20
    ensures |Escape(d, c)| > 1 ==> Escape(d, c)[0] == '\\'
    ensures |Escape(d, c)| == 2 ==> Escape(d, c)[1] in "\"\\btnfr"
    ensures |Escape(d, c)| == 6 ==> c as nat < 0x10000 && Escape(d, c) == "\\u" + Hex4(c as nat)
    ensures |Escape(d, c)| == 12 ==>
      c as nat >= 0x10000 && Escape(d, c) == "\\u" + Hex4(HighSurrogate(c)) + "\\u" + Hex4(LowSurrogate(c))
  {
  }

  /** An escape stands for the character it was made from. */
  lemma CharReadBack(d: Dialect, c: char, s: string)
    ensures ReadChar(Escape(d, c) + s) == Some((c, s))
  {
    var e := Escape(d, c);
    var t := e + s;
    EscapeShape(d, c);
    assert t[0] == e[0] && t[|e|..] == s;
    if |e| > 1 {
      assert t[1] == e[1];
      if |e| == 6 {
        UnitReadBack(c as nat, s);
      } else if |e| == 12 {
        var high, low := "\\u" + Hex4(HighSurrogate(c)), "\\u" + Hex4(LowSurrogate(c));
        Assoc(high, "\\u", Hex4(LowSurrogate(c)));
        Assoc(high, low, s);
        UnitReadBack(HighSurrogate(c), low + s);
        UnitReadBack(LowSurrogate(c), s);
      }
    }
  }

  lemma {:induction false} BodyReadBack(d: Dialect, x: string, s: string)
    ensures ReadBody(EscapeAll(d, x) + ("\"" + s)) == Some((x, s))
  {
    var t := EscapeAll(d, x) + ("\"" + s);
    if x == [] {
      assert t == "\"" + s;
      Front("\"", s);
    } else {
      var e, rest := Escape(d, x[0]), EscapeAll(d, x[1..]) + ("\"" + s);
      Assoc(e, EscapeAll(d, x[1..]), "\"" + s);
      EscapeShape(d, x[0]);
      assert t == e + rest && t[0] == e[0];
      CharReadBack(d, x[0], rest);
      BodyReadBack(d, x[1..], s);
      assert x == [x[0]] + x[1..];
    }
  }

  lemma StringReadBack(d: Dialect, x: string, s: string)
    ensures ReadString(Quote(d, x) + s) == Some((x, s))
  {
    BodyReadBack(d, x, s);
    assert Quote(d, x) + s == "\"" + (EscapeAll(d, x) + ("\"" + s));
    Front("\"", EscapeAll(d, x) + ("\"" + s));
  }

  // ---- Values --------------------------------------------------------------

  ghost predicate HeadFits(v: Json, c: char) {
    match v
    case Null => c == 'n'
    case Bool(b) => c == if b then 't' else 'f'
    case Num(_) => IsDigit(c) || c == '-'
    case Str(_) => c == '\"'
    case Arr(_) => c == '['
    case Obj(_) => c == '{'
  }

  lemma WriteHead(d: Dialect, v: Json, s: string)
    ensures Write(d, v) != [] && HeadFits(v, (Write(d, v) + s)[0])
  {
    if v.Num? {
      DigitsRead(if v.n < 0 then -v.n else v.n);
    }
  }

  /** The rest of an array together with what follows it. */
  lemma ItemsStep(d: Dialect, xs: seq<Json>, first: bool, s: string)
    ensures WriteItems(d, xs, first) != []
    ensures var l := WriteItems(d, xs, first) + s;
      && l != []
      && (!first ==> Ends(l))
      && (xs == [] ==> l == "]" + s && l[0] == ']')
      && (xs != [] ==>
            && l[0] != ']'
            && l == Comma(first) + (Write(d, xs[0]) + (WriteItems(d, xs[1..], false) + s)))
  {
    if xs != [] {
      WriteHead(d, xs[0], WriteItems(d, xs[1..], false) + s);
      Assoc(Comma(first), Write(d, xs[0]), WriteItems(d, xs[1..], false));
      Assoc(Write(d, xs[0]), WriteItems(d, xs[1..], false), s);
      Assoc(Comma(first), Write(d, xs[0]) + WriteItems(d, xs[1..], false), s);
    }
  }

  lemma EntriesStep(d: Dialect, es: seq<Entry>, first: bool, s: string)
    ensures WriteEntries(d, es, first) != []
    ensures var l := WriteEntries(d, es, first) + s;
      && l != []
      && (!first ==> Ends(l))
      && (es == [] ==> l == "}" + s && l[0] == '}')
      && (es != [] ==>
            && l[0] != '}'
            && l == Comma(first) + (Quote(d, es[0].key) +
                 (":" + (Write(d, es[0].value) + (WriteEntries(d, es[1..], false) + s)))))
  {
    if es != [] {
      var a, b, c, e := Comma(first), Quote(d, es[0].key), Write(d, es[0].value), WriteEntries(d, es[1..], false);
      calc {
        a + b + ":" + c + e + s;
        { Assoc(a + b + ":" + c, e, s); }
        a + b + ":" + c + (e + s);
        { Assoc(a + b + ":", c, e + s); }
        a + b + ":" + (c + (e + s));
        { Assoc(a + b, ":", c + (e + s)); }
        a + b + (":" + (c + (e + s)));
        { Assoc(a, b, ":" + (c + (e + s))); }
        a + (b + (":" + (c + (e + s))));
      }
    }
  }

  lemma KeywordReadBack(v: Json, s: string)
    requires v.Null? || v.Bool?
    ensures ReadKeyword((if v.Null? then "null" else if v.b then "true" else "false") + s) == Some((v, s))
  {
    var word := if v.Null? then "null" else if v.b then "true" else "false";
    Front(word, s);
    assert (word + s)[..4][0] == word[0];
  }

  /** Text in front of a delimiter is read back as the value it was made from,
      entries in the order in which they were written. */
  lemma {:induction false} ReadBack(d: Dialect, v: Json, s: string)
    requires Ends(s)
    ensures ReadValue(Write(d, v) + s) == Some((v, s))
    decreases v, 1
  {
    WriteHead(d, v, s);
    match v
    case Null => KeywordReadBack(v, s);
    case Bool(_) => KeywordReadBack(v, s);
    case Num(n) => NumberReadBack(n, s);
    case Str(x) => StringReadBack(d, x, s);
    case Arr(xs) =>
      Assoc("[", WriteItems(d, xs, true), s);
      Front("[", WriteItems(d, xs, true) + s);
      ItemsReadBack(d, xs, true, s);
    case Obj(es) =>
      Assoc("{", WriteEntries(d, es, true), s);
      Front("{", WriteEntries(d, es, true) + s);
      EntriesReadBack(d, es, true, s);
  }

  lemma {:induction false} ItemsReadBack(d: Dialect, xs: seq<Json>, first: bool, s: string)
    ensures ReadItems(WriteItems(d, xs, first) + s, first) == Some((xs, s))
    decreases xs, 0
  {
    ItemsStep(d, xs, first, s);
    if xs == [] {
      Front("]", s);
    } else {
      var rest := WriteItems(d, xs[1..], false) + s;
      Front(Comma(first), Write(d, xs[0]) + rest);
      ItemsStep(d, xs[1..], false, s);
      ReadBack(d, xs[0], rest);
      ItemsReadBack(d, xs[1..], false, s);
      assert xs == [xs[0]] + xs[1..];
    }
  }

  lemma {:induction false} MemberReadBack(d: Dialect, e: Entry, s: string)
    requires Ends(s)
    ensures ReadMember(Quote(d, e.key) + (":" + (Write(d, e.value) + s))) == Some((e, s))
    decreases e, 2
  {
    var value := Write(d, e.value) + s;
    StringReadBack(d, e.key, ":" + value);
    Front(":", value);
    ReadBack(d, e.value, s);
  }

  lemma ReadEntriesStep(text: string, first: bool, member: string, e: Entry, rest: string)
    requires text == Comma(first) + member && member != [] && member[0] == '\"'
    requires ReadMember(member) == Some((e, rest))
    ensures var p := ReadEntries(rest, false);
      ReadEntries(text, first) == if p.None? then None else Some(([e] + p.value.0, p.value.1))
  {
    Front(Comma(first), member);
  }

  lemma {:induction false} EntriesReadBack(d: Dialect, es: seq<Entry>, first: bool, s: string)
    ensures ReadEntries(WriteEntries(d, es, first) + s, first) == Some((es, s))
    decreases es, 0
  {
    EntriesStep(d, es, first, s);
    if es == [] {
      Front("}", s);
    } else {
      var rest := WriteEntries(d, es[1..], false) + s;
      var member := Quote(d, es[0].key) + (":" + (Write(d, es[0].value) + rest));
      EntriesStep(d, es[1..], false, s);
      MemberReadBack(d, es[0], rest);
      EntriesReadBack(d, es[1..], false, s);
      ReadEntriesStep(Comma(first) + member, first, member, es[0], rest);
      assert es == [es[0]] + es[1..];
    }
  }

  /** Equal texts in front of delimiters come from equal values. */
  lemma WriteUnique(d: Dialect, v: Json, w: Json, s: string, t: string)
    requires Write(d, v) + s == Write(d, w) + t && Ends(s) && Ends(t)
    ensures v == w && s == t
  {
    ReadBack(d, v, s);
    ReadBack(d, w, t);
  }
}
