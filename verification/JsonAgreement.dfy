/** When the audit crate's text equals the extension's text, and when it equals
    the Python text it is documented to reproduce. */
module JsonAgreement {
  import opened Json
  import opened JsonDecoding
  import opened JsonCanonical
  import opened JsonWriters

  // ---- Rust and JavaScript -------------------------------------------------

  lemma {:induction false} SameQuotes(s: string)
    ensures EscapeAll(Rust, s) == EscapeAll(JavaScript, s)
  {
    if s != [] {
      SameQuotes(s[1..]);
    }
  }

  lemma {:induction false} SameText(v: Json)
    ensures Write(Rust, v) == Write(JavaScript, v)
    decreases v, 1
  {
    match v
    case Str(s) => SameQuotes(s);
    case Arr(items) => SameItemsText(items, true);
    case Obj(entries) => SameEntriesText(entries, true);
    case _ =>
  }

  lemma {:induction false} SameItemsText(xs: seq<Json>, first: bool)
    ensures WriteItems(Rust, xs, first) == WriteItems(JavaScript, xs, first)
    decreases xs, 0
  {
    if xs != [] {
      SameText(xs[0]);
      SameItemsText(xs[1..], false);
    }
  }

  lemma {:induction false} SameEntriesText(es: seq<Entry>, first: bool)
    ensures WriteEntries(Rust, es, first) == WriteEntries(JavaScript, es, first)
    decreases es, 0
  {
    if es != [] {
      SameQuotes(es[0].key);
      SameText(es[0].value);
      SameEntriesText(es[1..], false);
    }
  }

  /** A dialect compares the keys in a list the way Rust does. */
  ghost predicate SameOrder(d: Dialect, es: seq<Entry>) {
    forall e, f :: e in es && f in es ==> (KeyLess(Rust, e.key, f.key) <==> KeyLess(d, e.key, f.key))
  }

  /** A dialect compares the keys of every object the way Rust does. */
  ghost predicate KeyOrdersAgree(d: Dialect, v: Json) {
    match v
    case Arr(items) => forall x :: x in items ==> KeyOrdersAgree(d, x)
    case Obj(entries) => SameOrder(d, entries) && forall e :: e in entries ==> KeyOrdersAgree(d, e.value)
    case _ => true
  }

  lemma {:induction false} InsertAgrees(d: Dialect, e: Entry, es: seq<Entry>)
    requires SameOrder(d, [e] + es)
    ensures Insert(Rust, e, es) == Insert(d, e, es)
  {
    if es != [] {
      assert e in [e] + es && es[0] in [e] + es;
      assert forall x :: x in [e] + es[1..] ==> x in [e] + es;
      InsertAgrees(d, e, es[1..]);
    }
  }

  lemma {:induction false} SortEntriesAgrees(d: Dialect, es: seq<Entry>)
    requires SameOrder(d, es)
    ensures SortEntries(Rust, es) == SortEntries(d, es)
  {
    if es != [] {
      assert forall x :: x in es[1..] ==> x in es;
      SortEntriesAgrees(d, es[1..]);
      SameElements(Rust, es[1..]);
      var sorted := SortEntries(Rust, es[1..]);
      assert forall x :: x in [es[0]] + sorted ==> x in es;
      InsertAgrees(d, es[0], sorted);
    }
  }

  lemma {:induction false} SortDeepAgrees(d: Dialect, v: Json)
    requires KeyOrdersAgree(d, v)
    ensures SortDeep(Rust, v) == SortDeep(d, v)
    decreases v, 1
  {
    match v
    case Arr(items) => SortItemsAgrees(d, items);
    case Obj(entries) =>
      SortValuesAgrees(d, entries);
      SameOrderOfValues(d, entries);
      SortEntriesAgrees(d, SortValues(d, entries));
    case _ =>
  }

  lemma {:induction false} SortItemsAgrees(d: Dialect, xs: seq<Json>)
    requires forall x :: x in xs ==> KeyOrdersAgree(d, x)
    ensures SortItems(Rust, xs) == SortItems(d, xs)
    decreases xs, 0
  {
    if xs != [] {
      assert xs[0] in xs;
      SortDeepAgrees(d, xs[0]);
      SortItemsAgrees(d, xs[1..]);
    }
  }

  lemma {:induction false} SortValuesAgrees(d: Dialect, es: seq<Entry>)
    requires forall e :: e in es ==> KeyOrdersAgree(d, e.value)
    ensures SortValues(Rust, es) == SortValues(d, es)
    decreases es, 0
  {
    if es != [] {
      assert es[0] in es;
      SortDeepAgrees(d, es[0].value);
      SortValuesAgrees(d, es[1..]);
    }
  }

  lemma SameOrderOfValues(d: Dialect, es: seq<Entry>)
    requires SameOrder(d, es)
    ensures SameOrder(d, SortValues(d, es))
  {
    var r := SortValues(d, es);
    forall e | e in r
      ensures exists x :: x in es && x.key == e.key
    {
      var i :| 0 <= i < |r| && r[i] == e;
      SortValuesAt(d, es, i);
      assert es[i] in es;
    }
  }

  lemma {:induction false} AscendingBoth(es: seq<Entry>, e: Entry, f: Entry)
    requires Ascending(Rust, es) && Ascending(JavaScript, es) && e in es && f in es
    ensures KeyLess(Rust, e.key, f.key) <==> KeyLess(JavaScript, e.key, f.key)
    ensures e.key == f.key ==> e == f
  {
    KeyTrichotomy(Rust, e.key, f.key);
    KeyTrichotomy(JavaScript, e.key, f.key);
    if e != es[0] && f != es[0] {
      AscendingBoth(es[1..], e, f);
    }
  }

  lemma {:induction false} AgreementForced(v: Json)
    requires WellFormed(v) && SortDeep(Rust, v) == SortDeep(JavaScript, v)
    ensures KeyOrdersAgree(JavaScript, v)
  {
    match v
    case Arr(items) =>
      forall x | x in items
        ensures KeyOrdersAgree(JavaScript, x)
      {
        var i :| 0 <= i < |items| && items[i] == x;
        SortItemsAt(Rust, items, i);
        SortItemsAt(JavaScript, items, i);
        AgreementForced(x);
      }
    case Obj(entries) =>
      SortDeepMeaning(Rust, v);
      SortDeepMeaning(JavaScript, v);
      var sorted := SortDeep(Rust, v).entries;
      forall e, f | e in entries && f in entries
        ensures KeyLess(Rust, e.key, f.key) <==> KeyLess(JavaScript, e.key, f.key)
      {
        SortedEntry(Rust, entries, e);
        SortedEntry(Rust, entries, f);
        AscendingBoth(sorted, Entry(e.key, SortDeep(Rust, e.value)), Entry(f.key, SortDeep(Rust, f.value)));
      }
      forall e | e in entries
        ensures KeyOrdersAgree(JavaScript, e.value)
      {
        SortedEntry(Rust, entries, e);
        SortedEntry(JavaScript, entries, e);
        AscendingBoth(sorted, Entry(e.key, SortDeep(Rust, e.value)), Entry(e.key, SortDeep(JavaScript, e.value)));
        AgreementForced(e.value);
      }
    case _ =>
  }

  lemma SortedEntry(d: Dialect, es: seq<Entry>, e: Entry)
    requires e in es
    ensures Entry(e.key, SortDeep(d, e.value)) in SortEntries(d, SortValues(d, es))
  {
    var i :| 0 <= i < |es| && es[i] == e;
    SortValuesAt(d, es, i);
    SameElements(d, SortValues(d, es));
  }

  // ---- Numbers -------------------------------------------------------------

  /** `JSON.stringify` prints every integer of the value as it is. */
  ghost predicate ShownExactly(v: Json, shown: int -> int) {
    match v
    case Num(n) => shown(n) == n
    case Arr(items) => forall x :: x in items ==> ShownExactly(x, shown)
    case Obj(entries) => forall e :: e in entries ==> ShownExactly(e.value, shown)
    case _ => true
  }

  const MAX_EXACT := 0x20_0000_0000_0000

  /** No integer beyond 2^53, up to which doubles hold every integer. */
  ghost predicate SafeIntegers(v: Json) {
    match v
    case Num(n) => -MAX_EXACT <= n <= MAX_EXACT
    case Arr(items) => forall x :: x in items ==> SafeIntegers(x)
    case Obj(entries) => forall e :: e in entries ==> SafeIntegers(e.value)
    case _ => true
  }

  ghost predicate ShowsDoubles(shown: int -> int) {
    forall n :: -MAX_EXACT <= n <= MAX_EXACT ==> shown(n) == n
  }

  lemma {:induction false} SafeIsExact(v: Json, shown: int -> int)
    requires ShowsDoubles(shown) && SafeIntegers(v)
    ensures ShownExactly(v, shown)
  {
    match v
    case Arr(items) =>
      forall x | x in items
        ensures ShownExactly(x, shown)
      {
        SafeIsExact(x, shown);
      }
    case Obj(entries) =>
      forall e | e in entries
        ensures ShownExactly(e.value, shown)
      {
        SafeIsExact(e.value, shown);
      }
    case _ =>
  }

  lemma {:induction false} ExactIsUnrounded(v: Json, shown: int -> int)
    requires ShownExactly(v, shown)
    ensures Rounded(v, shown) == v
  {
    match v
    case Arr(items) =>
      forall i | 0 <= i < |items|
        ensures RoundedItems(items, shown)[i] == items[i]
      {
        RoundedItemsAt(items, shown, i);
        ExactIsUnrounded(items[i], shown);
      }
      assert RoundedItems(items, shown) == items;
    case Obj(entries) =>
      forall i | 0 <= i < |entries|
        ensures RoundedEntries(entries, shown)[i] == entries[i]
      {
        RoundedEntriesAt(entries, shown, i);
        assert entries[i] in entries;
        ExactIsUnrounded(entries[i].value, shown);
      }
      assert RoundedEntries(entries, shown) == entries;
    case _ =>
  }

  /** Rounding keeps keys, and with them what the rest asks of a value. */
  lemma {:induction false} RoundedKeys(es: seq<Entry>, shown: int -> int)
    ensures forall k :: HasKey(RoundedEntries(es, shown), k) <==> HasKey(es, k)
    ensures DistinctKeys(RoundedEntries(es, shown)) <==> DistinctKeys(es)
  {
    if es != [] {
      RoundedKeys(es[1..], shown);
      var e, r := Entry(es[0].key, Rounded(es[0].value, shown)), RoundedEntries(es[1..], shown);
      assert RoundedEntries(es, shown) == [e] + r && ([e] + r)[1..] == r;
      forall k
        ensures HasKey([e] + r, k) <==> k == e.key || HasKey(r, k)
        ensures HasKey(es, k) <==> k == es[0].key || HasKey(es[1..], k)
      {
        assert e in [e] + r && es[0] in es;
      }
    }
  }

  lemma {:induction false} RoundedWellFormed(v: Json, shown: int -> int)
    requires WellFormed(v)
    ensures WellFormed(Rounded(v, shown))
  {
    match v
    case Arr(items) =>
      forall x | x in RoundedItems(items, shown)
        ensures WellFormed(x)
      {
        var i :| 0 <= i < |items| && RoundedItems(items, shown)[i] == x;
        RoundedItemsAt(items, shown, i);
        RoundedWellFormed(items[i], shown);
      }
    case Obj(entries) =>
      RoundedKeys(entries, shown);
      forall e | e in RoundedEntries(entries, shown)
        ensures WellFormed(e.value)
      {
        var i :| 0 <= i < |entries| && RoundedEntries(entries, shown)[i] == e;
        RoundedEntriesAt(entries, shown, i);
        assert entries[i] in entries;
        RoundedWellFormed(entries[i].value, shown);
      }
    case _ =>
  }

  /** A value means what its rounding means only if nothing is rounded. */
  lemma {:induction false} MeaningShowsRounding(v: Json, shown: int -> int)
    requires WellFormed(v) && MeaningOf(Rounded(v, shown)) == MeaningOf(v)
    ensures ShownExactly(v, shown)
    decreases v, 1
  {
    match v
    case Arr(items) => ItemsMeaningShowsRounding(items, shown);
    case Obj(entries) => EntriesMeaningShowsRounding(entries, shown);
    case _ =>
  }

  lemma {:induction false} ItemsMeaningShowsRounding(xs: seq<Json>, shown: int -> int)
    requires forall x :: x in xs ==> WellFormed(x)
    requires MeaningOfItems(RoundedItems(xs, shown)) == MeaningOfItems(xs)
    ensures forall x :: x in xs ==> ShownExactly(x, shown)
    decreases xs, 0
  {
    if xs != [] {
      var r := RoundedItems(xs, shown);
      assert r[1..] == RoundedItems(xs[1..], shown);
      assert MeaningOfItems(r)[0] == MeaningOf(r[0]) && MeaningOfItems(xs)[0] == MeaningOf(xs[0]);
      assert MeaningOfItems(r)[1..] == MeaningOfItems(r[1..]);
      assert MeaningOfItems(xs)[1..] == MeaningOfItems(xs[1..]);
      MeaningShowsRounding(xs[0], shown);
      ItemsMeaningShowsRounding(xs[1..], shown);
    }
  }

  lemma {:induction false} EntriesMeaningShowsRounding(es: seq<Entry>, shown: int -> int)
    requires DistinctKeys(es) && forall e :: e in es ==> WellFormed(e.value)
    requires MeaningOfEntries(RoundedEntries(es, shown)) == MeaningOfEntries(es)
    ensures forall e :: e in es ==> ShownExactly(e.value, shown)
    decreases es, 0
  {
    if es != [] {
      var r := RoundedEntries(es, shown);
      assert r[1..] == RoundedEntries(es[1..], shown);
      RoundedKeys(es[1..], shown);
      UpdateInjective(MeaningOfEntries(r[1..]), MeaningOfEntries(es[1..]), es[0].key,
                      MeaningOf(r[0].value), MeaningOf(es[0].value));
      assert es[0] in es;
      MeaningShowsRounding(es[0].value, shown);
      EntriesMeaningShowsRounding(es[1..], shown);
    }
  }

  // ---- The two writers -----------------------------------------------------

  /** The audit crate's text of a value is the JavaScript-ordered text of another
      one exactly when nothing is rounded and the key orders agree. */
  lemma WritersAgree(v: Json, shown: int -> int)
    requires WellFormed(v)
    ensures Canonical(Rust, v) == CanonicalJson(v, shown) <==>
      ShownExactly(v, shown) && KeyOrdersAgree(JavaScript, v)
  {
    var w := Rounded(v, shown);
    CanonicalJsonIsCanonical(v, shown);
    SameText(SortDeep(JavaScript, w));
    if ShownExactly(v, shown) && KeyOrdersAgree(JavaScript, v) {
      ExactIsUnrounded(v, shown);
      SortDeepAgrees(JavaScript, v);
    }
    if Canonical(Rust, v) == CanonicalJson(v, shown) {
      WriteUnique(Rust, SortDeep(Rust, v), SortDeep(JavaScript, w), "", "");
      RoundedWellFormed(v, shown);
      SortDeepMeaning(Rust, v);
      SortDeepMeaning(JavaScript, w);
      MeaningShowsRounding(v, shown);
      ExactIsUnrounded(v, shown);
      AgreementForced(v);
    }
  }

  /** The failing input beside key orders: `JSON.stringify` prints the double
      2^60 with as few digits as tell it apart, the audit crate prints all. */
  lemma LargeIntegersDisagree(shown: int -> int)
    requires shown(0x1000_0000_0000_0000) == 1152921504606847000
    ensures Canonical(Rust, Num(0x1000_0000_0000_0000)) != CanonicalJson(Num(0x1000_0000_0000_0000), shown)
  {
    WritersAgree(Num(0x1000_0000_0000_0000), shown);
  }

  // ---- The condition in terms of characters --------------------------------

  /** One beyond U+FFFF, the other from U+E000 on: by code units the first is
      the lesser, by scalar values the greater. */
  predicate Crossed(x: char, y: char) {
    || (x as nat >= 0x10000 && 0xE000 <= y as nat < 0x10000)
    || (y as nat >= 0x10000 && 0xE000 <= x as nat < 0x10000)
  }

  /** The first difference of two keys is between crossed characters. */
  predicate Swapped(a: string, b: string) {
    a != [] && b != [] && if a[0] == b[0] then Swapped(a[1..], b[1..]) else Crossed(a[0], b[0])
  }

  lemma {:induction false} LexBehind(p: seq<nat>, a: seq<nat>, b: seq<nat>)
    ensures LexLess(p + a, p + b) <==> LexLess(a, b)
    decreases |p|
  {
    if p == [] {
      assert p + a == a && p + b == b;
    } else {
      assert (p + a)[1..] == p[1..] + a && (p + b)[1..] == p[1..] + b;
      LexBehind(p[1..], a, b);
    }
  }

  /** Where two keys differ in their first character, that decides. */
  lemma FirstDecides(d: Dialect, a: string, b: string)
    requires a != [] && b != [] && a[0] != b[0]
    ensures KeyLess(d, a, b) <==>
      if d.JavaScript? && Crossed(a[0], b[0]) then b[0] < a[0] else a[0] < b[0]
  {
    var x, y := RankOf(d, a[0]), RankOf(d, b[0]);
    var r, s := KeyRank(d, a), KeyRank(d, b);
    assert r[0] == x[0] && s[0] == y[0];
    if |x| == 2 && |y| == 2 {
      assert r[1] == x[1] && s[1] == y[1];
      SurrogatesInOrder(a[0], b[0]);
    } else {
      assert x[0] != y[0];
    }
    LexHeads(r, s);
  }

  lemma LexHeads(r: seq<nat>, s: seq<nat>)
    requires r != [] && s != []
    ensures r[0] != s[0] ==> (LexLess(r, s) <==> r[0] < s[0])
    ensures |r| > 1 && |s| > 1 && r[0] == s[0] && r[1] != s[1] ==> (LexLess(r, s) <==> r[1] < s[1])
  {
    if |r| > 1 && |s| > 1 {
      assert r[1..][0] == r[1] && s[1..][0] == s[1];
    }
  }

  lemma SurrogatesInOrder(x: char, y: char)
    requires x as nat >= 0x10000 && y as nat >= 0x10000 && x != y
    ensures x < y <==>
      HighSurrogate(x) < HighSurrogate(y) || (HighSurrogate(x) == HighSurrogate(y) && LowSurrogate(x) < LowSurrogate(y))
    ensures HighSurrogate(x) != HighSurrogate(y) || LowSurrogate(x) != LowSurrogate(y)
  {
    assert x as nat - 0x10000 == (HighSurrogate(x) - 0xD800) * 0x400 + (LowSurrogate(x) - 0xDC00);
    assert y as nat - 0x10000 == (HighSurrogate(y) - 0xD800) * 0x400 + (LowSurrogate(y) - 0xDC00);
  }

  lemma {:induction false} OrdersSwapExactly(a: string, b: string)
    ensures (KeyLess(Rust, a, b) <==> KeyLess(JavaScript, a, b)) <==> !Swapped(a, b)
    decreases |a|
  {
    if a != [] && b != [] {
      if a[0] == b[0] {
        OrdersSwapExactly(a[1..], b[1..]);
        LexBehind(RankOf(Rust, a[0]), KeyRank(Rust, a[1..]), KeyRank(Rust, b[1..]));
        LexBehind(RankOf(JavaScript, a[0]), KeyRank(JavaScript, a[1..]), KeyRank(JavaScript, b[1..]));
      } else {
        FirstDecides(Rust, a, b);
        FirstDecides(JavaScript, a, b);
      }
    }
  }

  ghost predicate NoSwappedKeys(v: Json) {
    match v
    case Arr(items) => forall x :: x in items ==> NoSwappedKeys(x)
    case Obj(entries) =>
      && (forall e, f :: e in entries && f in entries ==> !Swapped(e.key, f.key))
      && forall e :: e in entries ==> NoSwappedKeys(e.value)
    case _ => true
  }

  lemma {:induction false} KeyOrdersExact(v: Json)
    ensures KeyOrdersAgree(JavaScript, v) <==> NoSwappedKeys(v)
  {
    match v
    case Arr(items) =>
      forall x | x in items
        ensures KeyOrdersAgree(JavaScript, x) <==> NoSwappedKeys(x)
      {
        KeyOrdersExact(x);
      }
    case Obj(entries) =>
      forall e | e in entries
        ensures KeyOrdersAgree(JavaScript, e.value) <==> NoSwappedKeys(e.value)
      {
        KeyOrdersExact(e.value);
      }
      forall e, f | e in entries && f in entries
        ensures (KeyLess(Rust, e.key, f.key) <==> KeyLess(JavaScript, e.key, f.key)) <==> !Swapped(e.key, f.key)
      {
        OrdersSwapExactly(e.key, f.key);
      }
    case _ =>
  }

  /** With integers up to 2^53 the two texts differ exactly when some object has
      two keys whose first difference is between crossed characters. */
  lemma WritersAgreeOnCharacters(v: Json, shown: int -> int)
    requires WellFormed(v) && SafeIntegers(v) && ShowsDoubles(shown)
    ensures Canonical(Rust, v) == CanonicalJson(v, shown) <==> NoSwappedKeys(v)
  {
    WritersAgree(v, shown);
    SafeIsExact(v, shown);
    KeyOrdersExact(v);
  }

  ghost predicate BmpKeys(v: Json) {
    match v
    case Arr(items) => forall x :: x in items ==> BmpKeys(x)
    case Obj(entries) =>
      forall e :: e in entries ==> BmpKeys(e.value) && forall c :: c in e.key ==> c as nat < 0x10000
    case _ => true
  }

  lemma {:induction false} BmpRank(s: string)
    requires forall c :: c in s ==> c as nat < 0x10000
    ensures KeyRank(Rust, s) == KeyRank(JavaScript, s)
  {
    if s != [] {
      assert s[0] in s && forall c :: c in s[1..] ==> c in s;
      BmpRank(s[1..]);
    }
  }

  /** Keys without characters beyond U+FFFF are ordered alike, so on them the
      two writers always agree. */
  lemma {:induction false} BmpKeysAgree(v: Json)
    requires BmpKeys(v)
    ensures KeyOrdersAgree(JavaScript, v)
  {
    match v
    case Arr(items) =>
      forall x | x in items
        ensures KeyOrdersAgree(JavaScript, x)
      {
        BmpKeysAgree(x);
      }
    case Obj(entries) =>
      forall e | e in entries
        ensures KeyOrdersAgree(JavaScript, e.value) && KeyRank(Rust, e.key) == KeyRank(JavaScript, e.key)
      {
        BmpKeysAgree(e.value);
        BmpRank(e.key);
      }
    case _ =>
  }

  lemma SingleKey(d: Dialect, c: char)
    ensures KeyRank(d, [c]) == RankOf(d, c)
  {
    assert [c][1..] == [];
  }

  /** They do not always agree: U+E000 and U+10000 swap places. */
  lemma WritersDisagree(shown: int -> int)
    ensures var v := Obj([Entry(['\U{E000}'], Null), Entry(['\U{10000}'], Null)]);
      WellFormed(v) && Canonical(Rust, v) != CanonicalJson(v, shown)
  {
    var e, f := Entry(['\U{E000}'], Null), Entry(['\U{10000}'], Null);
    var v := Obj([e, f]);
    SingleKey(Rust, e.key[0]);
    SingleKey(Rust, f.key[0]);
    SingleKey(JavaScript, e.key[0]);
    SingleKey(JavaScript, f.key[0]);
    assert v.entries[1..] == [f] && v.entries[1..][1..] == [];
    assert e in v.entries && f in v.entries;
    assert KeyLess(Rust, e.key, f.key) && !KeyLess(JavaScript, e.key, f.key);
    assert !KeyOrdersAgree(JavaScript, v);
    WritersAgree(v, shown);
  }

  // ---- Rust and Python -----------------------------------------------------

  ghost predicate Below7F(s: string) {
    forall c :: c in s ==> c as nat < 0x7F
  }

  /** Every string and every key is below U+007F. */
  ghost predicate PlainAscii(v: Json)
    decreases v, 1
  {
    match v
    case Str(s) => Below7F(s)
    case Arr(items) => PlainItems(items)
    case Obj(entries) => PlainEntries(entries)
    case _ => true
  }

  ghost predicate PlainItems(xs: seq<Json>)
    decreases xs, 0
  {
    forall x :: x in xs ==> PlainAscii(x)
  }

  ghost predicate PlainEntries(es: seq<Entry>)
    decreases es, 0
  {
    forall e :: e in es ==> Below7F(e.key) && PlainAscii(e.value)
  }

  lemma {:induction false} PythonRank(s: string)
    ensures KeyRank(Rust, s) == KeyRank(Python, s)
  {
    if s != [] {
      PythonRank(s[1..]);
    }
  }

  lemma {:induction false} PythonOrder(v: Json)
    ensures KeyOrdersAgree(Python, v)
  {
    match v
    case Arr(items) =>
      forall x | x in items
        ensures KeyOrdersAgree(Python, x)
      {
        PythonOrder(x);
      }
    case Obj(entries) =>
      forall e | e in entries
        ensures KeyOrdersAgree(Python, e.value) && KeyRank(Rust, e.key) == KeyRank(Python, e.key)
      {
        PythonOrder(e.value);
        PythonRank(e.key);
      }
    case _ =>
  }

  lemma {:induction false} PlainAsciiSorted(d: Dialect, v: Json)
    ensures PlainAscii(SortDeep(d, v)) <==> PlainAscii(v)
    decreases v, 1
  {
    match v
    case Arr(items) => PlainItemsSorted(d, items);
    case Obj(entries) =>
      PlainValuesSorted(d, entries);
      PlainObjectSorted(d, v);
    case _ =>
  }

  lemma PlainObjectSorted(d: Dialect, v: Json)
    requires v.Obj? && (PlainEntries(SortValues(d, v.entries)) <==> PlainEntries(v.entries))
    ensures PlainAscii(SortDeep(d, v)) <==> PlainAscii(v)
  {
    var values := SortValues(d, v.entries);
    var sorted := SortEntries(d, values);
    SameElements(d, values);
    assert PlainEntries(sorted) <==> PlainEntries(values);
    assert SortDeep(d, v) == Obj(sorted);
  }

  lemma {:induction false} PlainItemsSorted(d: Dialect, xs: seq<Json>)
    ensures PlainItems(SortItems(d, xs)) <==> PlainItems(xs)
    decreases xs, 0
  {
    if xs != [] {
      PlainAsciiSorted(d, xs[0]);
      PlainItemsSorted(d, xs[1..]);
      var y, ys := SortDeep(d, xs[0]), SortItems(d, xs[1..]);
      assert forall x :: x in SortItems(d, xs) <==> x == y || x in ys;
      assert forall x :: x in xs <==> x == xs[0] || x in xs[1..];
    }
  }

  lemma {:induction false} PlainValuesSorted(d: Dialect, es: seq<Entry>)
    ensures PlainEntries(SortValues(d, es)) <==> PlainEntries(es)
    decreases es, 0
  {
    if es != [] {
      PlainAsciiSorted(d, es[0].value);
      PlainValuesSorted(d, es[1..]);
      var f, fs := Entry(es[0].key, SortDeep(d, es[0].value)), SortValues(d, es[1..]);
      assert forall e :: e in SortValues(d, es) <==> e == f || e in fs;
      assert forall e :: e in es <==> e == es[0] || e in es[1..];
    }
  }

  lemma Below7FConcat(a: string, b: string)
    ensures Below7F(a + b) <==> Below7F(a) && Below7F(b)
  {
    assert forall c :: c in a + b <==> c in a || c in b;
  }

  lemma PythonEscape(c: char)
    ensures Below7F(Escape(Python, c))
    ensures Below7F(Escape(Rust, c)) <==> c as nat < 0x7F
    ensures c as nat < 0x7F ==> Escape(Rust, c) == Escape(Python, c)
  {
    if c as nat >= 0x7F {
      assert c in Escape(Rust, c);
    }
  }

  lemma {:induction false} PythonEscapes(s: string)
    ensures Below7F(EscapeAll(Python, s))
    ensures Below7F(EscapeAll(Rust, s)) ==> Below7F(s)
    ensures Below7F(s) ==> EscapeAll(Rust, s) == EscapeAll(Python, s)
  {
    if s != [] {
      PythonEscapes(s[1..]);
      PythonEscape(s[0]);
      Below7FConcat(Escape(Python, s[0]), EscapeAll(Python, s[1..]));
      Below7FConcat(Escape(Rust, s[0]), EscapeAll(Rust, s[1..]));
      Below7FConcat([s[0]], s[1..]);
      assert s == [s[0]] + s[1..];
      assert s[0] in [s[0]];
    }
  }

  lemma PythonQuote(s: string)
    ensures Below7F(Quote(Python, s))
    ensures Below7F(Quote(Rust, s)) ==> Below7F(s)
    ensures Below7F(s) ==> Quote(Rust, s) == Quote(Python, s)
  {
    PythonEscapes(s);
    Below7FConcat("\"", EscapeAll(Python, s));
    Below7FConcat("\"" + EscapeAll(Python, s), "\"");
    Below7FConcat("\"", EscapeAll(Rust, s));
    Below7FConcat("\"" + EscapeAll(Rust, s), "\"");
  }

  lemma {:induction false} DecimalBelow(n: int)
    ensures Below7F(Decimal(n))
  {
    DigitsRead(if n < 0 then -n else n);
  }

  lemma {:induction false} PythonText(v: Json)
    ensures Below7F(Write(Python, v))
    ensures Below7F(Write(Rust, v)) ==> PlainAscii(v)
    ensures PlainAscii(v) ==> Write(Rust, v) == Write(Python, v)
    decreases v, 1
  {
    match v
    case Num(n) => DecimalBelow(n);
    case Str(s) => PythonQuote(s);
    case Arr(items) =>
      PythonItemsText(items, true);
      Below7FConcat("[", WriteItems(Python, items, true));
      Below7FConcat("[", WriteItems(Rust, items, true));
    case Obj(entries) =>
      PythonEntriesText(entries, true);
      Below7FConcat("{", WriteEntries(Python, entries, true));
      Below7FConcat("{", WriteEntries(Rust, entries, true));
    case _ =>
  }

  lemma {:induction false} PythonItemsText(xs: seq<Json>, first: bool)
    ensures Below7F(WriteItems(Python, xs, first))
    ensures Below7F(WriteItems(Rust, xs, first)) ==> PlainItems(xs)
    ensures PlainItems(xs) ==> WriteItems(Rust, xs, first) == WriteItems(Python, xs, first)
    decreases xs, 0
  {
    if xs != [] {
      PythonText(xs[0]);
      PythonItemsText(xs[1..], false);
      ItemsBelow(Rust, xs, first);
      ItemsBelow(Python, xs, first);
      assert forall x :: x in xs <==> x == xs[0] || x in xs[1..];
    }
  }

  lemma ItemsBelow(d: Dialect, xs: seq<Json>, first: bool)
    requires xs != []
    ensures Below7F(WriteItems(d, xs, first)) <==> Below7F(Write(d, xs[0])) && Below7F(WriteItems(d, xs[1..], false))
  {
    Below7FConcat(Comma(first), Write(d, xs[0]));
    Below7FConcat(Comma(first) + Write(d, xs[0]), WriteItems(d, xs[1..], false));
  }

  lemma EntriesBelow(d: Dialect, es: seq<Entry>, first: bool)
    requires es != []
    ensures Below7F(WriteEntries(d, es, first)) <==>
      Below7F(Quote(d, es[0].key)) && Below7F(Write(d, es[0].value)) && Below7F(WriteEntries(d, es[1..], false))
  {
    var k, w := Quote(d, es[0].key), Write(d, es[0].value);
    Below7FConcat(Comma(first), k);
    Below7FConcat(Comma(first) + k, ":");
    Below7FConcat(Comma(first) + k + ":", w);
    Below7FConcat(Comma(first) + k + ":" + w, WriteEntries(d, es[1..], false));
  }

  lemma {:induction false} PythonEntriesText(es: seq<Entry>, first: bool)
    ensures Below7F(WriteEntries(Python, es, first))
    ensures Below7F(WriteEntries(Rust, es, first)) ==> PlainEntries(es)
    ensures PlainEntries(es) ==> WriteEntries(Rust, es, first) == WriteEntries(Python, es, first)
    decreases es, 0
  {
    if es != [] {
      PythonQuote(es[0].key);
      PythonText(es[0].value);
      PythonEntriesText(es[1..], false);
      EntriesBelow(Rust, es, first);
      EntriesBelow(Python, es, first);
      assert forall e :: e in es <==> e == es[0] || e in es[1..];
    }
  }

  /** The audit crate reproduces Python's text exactly on the values whose
      strings and keys stay below U+007F. */
  lemma PythonAgrees(v: Json)
    ensures Canonical(Rust, v) == Canonical(Python, v) <==> PlainAscii(v)
  {
    PythonOrder(v);
    SortDeepAgrees(Python, v);
    PythonText(SortDeep(Rust, v));
    PlainAsciiSorted(Rust, v);
  }

  lemma {:induction false} PlainAsciiIsBmp(v: Json)
    requires PlainAscii(v)
    ensures BmpKeys(v)
  {
    match v
    case Arr(items) =>
      forall x | x in items
        ensures BmpKeys(x)
      {
        PlainAsciiIsBmp(x);
      }
    case Obj(entries) =>
      forall e | e in entries
        ensures BmpKeys(e.value) && forall c :: c in e.key ==> c as nat < 0x10000
      {
        PlainAsciiIsBmp(e.value);
      }
    case _ =>
  }

  /** The extension's writer is documented to match the Python text. It does
      exactly on the values whose strings and keys stay below U+007F and whose
      integers it shows as they are. */
  lemma ExtensionMatchesPython(v: Json, shown: int -> int)
    requires WellFormed(v)
    ensures CanonicalJson(v, shown) == Canonical(Python, v) <==> PlainAscii(v) && ShownExactly(v, shown)
  {
    var w := Rounded(v, shown);
    PythonAgrees(v);
    if PlainAscii(v) && ShownExactly(v, shown) {
      PlainAsciiIsBmp(v);
      BmpKeysAgree(v);
      WritersAgree(v, shown);
    }
    if CanonicalJson(v, shown) == Canonical(Python, v) {
      CanonicalJsonIsCanonical(v, shown);
      SameText(SortDeep(JavaScript, w));
      PythonText(SortDeep(Python, v));
      PythonText(SortDeep(JavaScript, w));
      PlainAsciiSorted(JavaScript, w);
      PlainAsciiIsBmp(w);
      BmpKeysAgree(w);
      SortDeepAgrees(JavaScript, w);
      PythonAgrees(w);
      RoundedWellFormed(v, shown);
      CanonicalTextDecidesMeaning(Python, w, v);
      MeaningShowsRounding(v, shown);
      ExactIsUnrounded(v, shown);
    }
  }
}
