/** The canonical text determines a value and nothing but the value: the order
    in which the entries of its objects were given does not matter, and
    everything else does. */
module JsonCanonical {
  import opened Json
  import opened JsonReader
  import opened JsonDecoding

  // ---- Key order is a strict total order -----------------------------------

  lemma {:induction false} LexTrichotomy(a: seq<nat>, b: seq<nat>)
    ensures a == b || LexLess(a, b) || LexLess(b, a)
    ensures !(LexLess(a, b) && LexLess(b, a))
    ensures a == b ==> !LexLess(a, b)
  {
    if a != [] && b != [] {
      LexTrichotomy(a[1..], b[1..]);
      assert a == [a[0]] + a[1..] && b == [b[0]] + b[1..];
    }
  }

  lemma {:induction false} LexTransitive(a: seq<nat>, b: seq<nat>, c: seq<nat>)
    requires LexLess(a, b) && LexLess(b, c)
    ensures LexLess(a, c)
  {
    if a != [] && a[0] == b[0] == c[0] {
      LexTransitive(a[1..], b[1..], c[1..]);
    }
  }

  lemma {:induction false} KeyRankUnique(d: Dialect, a: string, b: string)
    requires KeyRank(d, a) == KeyRank(d, b)
    ensures a == b
  {
    if a != [] && b != [] {
      var x, y := RankOf(d, a[0]), RankOf(d, b[0]);
      assert KeyRank(d, a)[0] == x[0] && KeyRank(d, b)[0] == y[0];
      if |x| == 2 {
        assert KeyRank(d, a)[1] == x[1];
      }
      if |y| == 2 {
        assert KeyRank(d, b)[1] == y[1];
      }
      assert a[0] == b[0];
      assert KeyRank(d, a[1..]) == KeyRank(d, a)[|x|..] == KeyRank(d, b)[|y|..] == KeyRank(d, b[1..]);
      KeyRankUnique(d, a[1..], b[1..]);
      assert a == [a[0]] + a[1..] && b == [b[0]] + b[1..];
    }
  }

  lemma KeyTrichotomy(d: Dialect, a: string, b: string)
    ensures a == b || KeyLess(d, a, b) || KeyLess(d, b, a)
    ensures !(KeyLess(d, a, b) && KeyLess(d, b, a))
    ensures a == b ==> !KeyLess(d, a, b)
  {
    LexTrichotomy(KeyRank(d, a), KeyRank(d, b));
    if KeyRank(d, a) == KeyRank(d, b) {
      KeyRankUnique(d, a, b);
    }
  }

  /** By scalar values a key is less than another exactly when it is a proper
      beginning of it, or has the lesser character at their first difference. */
  ghost predicate LessAt(a: string, b: string, i: nat) {
    i <= |a| && i < |b| && a[..i] == b[..i] && (i == |a| || a[i] < b[i])
  }

  lemma {:induction false} KeyLessExactly(a: string, b: string)
    ensures KeyLess(Rust, a, b) <==> exists i: nat :: LessAt(a, b, i)
  {
    if b == [] {
    } else if a == [] {
      assert LessAt(a, b, 0);
    } else {
      var x, y := KeyRank(Rust, a), KeyRank(Rust, b);
      assert x[0] == a[0] as nat && x[1..] == KeyRank(Rust, a[1..]);
      assert y[0] == b[0] as nat && y[1..] == KeyRank(Rust, b[1..]);
      KeyLessExactly(a[1..], b[1..]);
      if a[0] < b[0] {
        assert LessAt(a, b, 0);
      } else if a[0] == b[0] {
        LessBehind(a, b);
      } else {
        forall i: nat
          ensures !LessAt(a, b, i)
        {
          if 0 < i <= |a| && i < |b| {
            assert a[..i][0] != b[..i][0];
          }
        }
      }
    }
  }

  lemma LessBehind(a: string, b: string)
    requires a != [] && b != [] && a[0] == b[0]
    ensures (exists i: nat :: LessAt(a, b, i)) <==> exists i: nat :: LessAt(a[1..], b[1..], i)
  {
    if i: nat :| LessAt(a[1..], b[1..], i) {
      assert a[..i + 1] == [a[0]] + a[1..][..i] && b[..i + 1] == [b[0]] + b[1..][..i];
      assert LessAt(a, b, i + 1);
    }
    if i: nat :| LessAt(a, b, i) {
      assert a[..i][1..] == a[1..][..i - 1] && b[..i][1..] == b[1..][..i - 1];
      assert LessAt(a[1..], b[1..], i - 1);
    }
  }

  // ---- Sorting -------------------------------------------------------------

  /** The first key is below every other one, and so on down the list. */
  ghost predicate Ascending(d: Dialect, es: seq<Entry>) {
    es != [] ==>
      && (forall e :: e in es[1..] ==> KeyLess(d, es[0].key, e.key))
      && Ascending(d, es[1..])
  }

  ghost predicate SortedDeep(d: Dialect, v: Json) {
    match v
    case Arr(items) => forall x :: x in items ==> SortedDeep(d, x)
    case Obj(entries) => Ascending(d, entries) && forall e :: e in entries ==> SortedDeep(d, e.value)
    case _ => true
  }

  lemma SameElements(d: Dialect, es: seq<Entry>)
    ensures forall e :: e in SortEntries(d, es) <==> e in es
    ensures forall k :: HasKey(SortEntries(d, es), k) <==> HasKey(es, k)
  {
    var r := SortEntries(d, es);
    assert forall e :: e in r <==> e in multiset(r);
    assert forall e :: e in es <==> e in multiset(es);
  }

  lemma InsertElements(d: Dialect, e: Entry, es: seq<Entry>)
    ensures forall x :: x in Insert(d, e, es) <==> x == e || x in es
  {
    var r := Insert(d, e, es);
    assert forall x :: x in r <==> x in multiset(r);
    assert forall x :: x in [e] + es <==> x in multiset([e] + es);
  }

  lemma MeaningStep(e: Entry, es: seq<Entry>)
    ensures MeaningOfEntries([e] + es) == MeaningOfEntries(es)[e.key := MeaningOf(e.value)]
  {
    assert ([e] + es)[1..] == es;
  }

  lemma UpdatesCommute<K, V>(m: map<K, V>, k: K, x: V, l: K, y: V)
    requires k != l
    ensures m[k := x][l := y] == m[l := y][k := x]
  {
  }

  lemma {:induction false} InsertMeaning(d: Dialect, e: Entry, es: seq<Entry>)
    requires e.key !in MeaningOfEntries(es)
    ensures MeaningOfEntries(Insert(d, e, es)) == MeaningOfEntries(es)[e.key := MeaningOf(e.value)]
  {
    if es == [] || KeyLess(d, e.key, es[0].key) {
      MeaningStep(e, es);
    } else {
      InsertMeaning(d, e, es[1..]);
      MeaningStep(es[0], Insert(d, e, es[1..]));
      UpdatesCommute(MeaningOfEntries(es[1..]), e.key, MeaningOf(e.value), es[0].key, MeaningOf(es[0].value));
    }
  }

  lemma {:induction false} InsertAscending(d: Dialect, e: Entry, es: seq<Entry>)
    requires Ascending(d, es) && !HasKey(es, e.key)
    ensures Ascending(d, Insert(d, e, es))
  {
    var r := Insert(d, e, es);
    if es == [] || KeyLess(d, e.key, es[0].key) {
      assert r[1..] == es;
      forall x | x in es
        ensures KeyLess(d, e.key, x.key)
      {
        if x != es[0] {
          assert x in es[1..];
          LexTransitive(KeyRank(d, e.key), KeyRank(d, es[0].key), KeyRank(d, x.key));
        }
      }
    } else {
      assert es[0] in es;
      KeyTrichotomy(d, e.key, es[0].key);
      assert !HasKey(es[1..], e.key) by {
        assert forall x :: x in es[1..] ==> x in es;
      }
      InsertAscending(d, e, es[1..]);
      InsertElements(d, e, es[1..]);
      assert r[1..] == Insert(d, e, es[1..]);
    }
  }

  lemma {:induction false} SortAscending(d: Dialect, es: seq<Entry>)
    requires DistinctKeys(es)
    ensures Ascending(d, SortEntries(d, es))
    ensures MeaningOfEntries(SortEntries(d, es)) == MeaningOfEntries(es)
  {
    if es != [] {
      SortAscending(d, es[1..]);
      SameElements(d, es[1..]);
      InsertAscending(d, es[0], SortEntries(d, es[1..]));
      InsertMeaning(d, es[0], SortEntries(d, es[1..]));
    }
  }

  /** Sorting changes neither the keys nor what they map to. */
  lemma {:induction false} SortDeepMeaning(d: Dialect, v: Json)
    requires WellFormed(v)
    ensures SortedDeep(d, SortDeep(d, v)) && MeaningOf(SortDeep(d, v)) == MeaningOf(v)
    decreases v, 1
  {
    match v
    case Arr(items) => SortItemsMeaning(d, items);
    case Obj(entries) =>
      SortValuesMeaning(d, entries);
      SortAscending(d, SortValues(d, entries));
      SameElements(d, SortValues(d, entries));
    case _ =>
  }

  lemma {:induction false} SortItemsMeaning(d: Dialect, xs: seq<Json>)
    requires forall x :: x in xs ==> WellFormed(x)
    ensures forall x :: x in SortItems(d, xs) ==> SortedDeep(d, x)
    ensures MeaningOfItems(SortItems(d, xs)) == MeaningOfItems(xs)
    decreases xs, 0
  {
    if xs != [] {
      assert xs[0] in xs;
      SortDeepMeaning(d, xs[0]);
      SortItemsMeaning(d, xs[1..]);
      assert SortItems(d, xs)[1..] == SortItems(d, xs[1..]);
    }
  }

  lemma {:induction false} SortValuesMeaning(d: Dialect, es: seq<Entry>)
    requires DistinctKeys(es) && forall e :: e in es ==> WellFormed(e.value)
    ensures DistinctKeys(SortValues(d, es))
    ensures forall e :: e in SortValues(d, es) ==> SortedDeep(d, e.value)
    ensures MeaningOfEntries(SortValues(d, es)) == MeaningOfEntries(es)
    decreases es, 0
  {
    if es != [] {
      assert es[0] in es;
      SortDeepMeaning(d, es[0].value);
      SortValuesMeaning(d, es[1..]);
      var head, rest := Entry(es[0].key, SortDeep(d, es[0].value)), SortValues(d, es[1..]);
      MeaningStep(head, rest);
      assert SortValues(d, es) == [head] + rest && ([head] + rest)[1..] == rest;
      assert es[0].key !in MeaningOfEntries(es[1..]);
      assert es[0].key !in MeaningOfEntries(rest);
    }
  }

  /** Sorted values that mean the same are the same. */
  lemma {:induction false} SortedMeaningUnique(d: Dialect, u: Json, w: Json)
    requires SortedDeep(d, u) && SortedDeep(d, w) && MeaningOf(u) == MeaningOf(w)
    ensures u == w
    decreases u, 1
  {
    match u
    case Arr(items) => ItemsMeaningUnique(d, items, w.items);
    case Obj(entries) => EntriesMeaningUnique(d, entries, w.entries);
    case _ =>
  }

  lemma {:induction false} ItemsMeaningUnique(d: Dialect, xs: seq<Json>, ys: seq<Json>)
    requires forall x :: x in xs ==> SortedDeep(d, x)
    requires forall y :: y in ys ==> SortedDeep(d, y)
    requires MeaningOfItems(xs) == MeaningOfItems(ys)
    ensures xs == ys
    decreases xs, 0
  {
    if xs != [] && ys != [] {
      assert MeaningOfItems(xs)[0] == MeaningOf(xs[0]) && MeaningOfItems(ys)[0] == MeaningOf(ys[0]);
      assert MeaningOfItems(xs)[1..] == MeaningOfItems(xs[1..]);
      assert MeaningOfItems(ys)[1..] == MeaningOfItems(ys[1..]);
      SortedMeaningUnique(d, xs[0], ys[0]);
      ItemsMeaningUnique(d, xs[1..], ys[1..]);
      assert xs == [xs[0]] + xs[1..] && ys == [ys[0]] + ys[1..];
    }
  }

  /** In an ascending list the first entry is the only one with its key. */
  lemma AscendingHead(d: Dialect, es: seq<Entry>)
    requires Ascending(d, es) && es != []
    ensures es[0].key !in MeaningOfEntries(es[1..])
    ensures forall k :: k in MeaningOfEntries(es) ==> k == es[0].key || KeyLess(d, es[0].key, k)
  {
    KeyTrichotomy(d, es[0].key, es[0].key);
    forall k | HasKey(es[1..], k)
      ensures KeyLess(d, es[0].key, k)
    {
    }
  }

  lemma UpdateInjective<K, V>(m: map<K, V>, n: map<K, V>, k: K, x: V, y: V)
    requires k !in m && k !in n && m[k := x] == n[k := y]
    ensures x == y && m == n
  {
    assert m[k := x][k] == x && n[k := y][k] == y;
    forall l
      ensures (l in m <==> l in n) && (l in m ==> m[l] == n[l])
    {
      if l != k {
        assert l in m <==> l in m[k := x];
        assert l in n <==> l in n[k := y];
      }
    }
  }

  lemma HeadsAgree(d: Dialect, es: seq<Entry>, fs: seq<Entry>)
    requires Ascending(d, es) && Ascending(d, fs) && es != [] && fs != []
    requires MeaningOfEntries(es) == MeaningOfEntries(fs)
    ensures es[0].key == fs[0].key && MeaningOf(es[0].value) == MeaningOf(fs[0].value)
    ensures MeaningOfEntries(es[1..]) == MeaningOfEntries(fs[1..])
  {
    AscendingHead(d, es);
    AscendingHead(d, fs);
    assert es[0].key in MeaningOfEntries(es) && fs[0].key in MeaningOfEntries(fs);
    KeyTrichotomy(d, es[0].key, fs[0].key);
    UpdateInjective(MeaningOfEntries(es[1..]), MeaningOfEntries(fs[1..]), es[0].key,
                    MeaningOf(es[0].value), MeaningOf(fs[0].value));
  }

  lemma {:induction false} EntriesMeaningUnique(d: Dialect, es: seq<Entry>, fs: seq<Entry>)
    requires Ascending(d, es) && Ascending(d, fs)
    requires forall e :: e in es ==> SortedDeep(d, e.value)
    requires forall f :: f in fs ==> SortedDeep(d, f.value)
    requires MeaningOfEntries(es) == MeaningOfEntries(fs)
    ensures es == fs
    decreases es, 0
  {
    assert es != [] ==> es[0].key in MeaningOfEntries(es);
    assert fs != [] ==> fs[0].key in MeaningOfEntries(fs);
    if es != [] {
      HeadsAgree(d, es, fs);
      assert es[0] in es && fs[0] in fs;
      SortedMeaningUnique(d, es[0].value, fs[0].value);
      EntriesMeaningUnique(d, es[1..], fs[1..]);
      assert es == [es[0]] + es[1..] && fs == [fs[0]] + fs[1..];
    }
  }

  // ---- The main results ----------------------------------------------------

  /** Two values have the same canonical text exactly when they mean the same. */
  lemma CanonicalTextDecidesMeaning(d: Dialect, v: Json, w: Json)
    requires WellFormed(v) && WellFormed(w)
    ensures Canonical(d, v) == Canonical(d, w) <==> MeaningOf(v) == MeaningOf(w)
  {
    SortDeepMeaning(d, v);
    SortDeepMeaning(d, w);
    if MeaningOf(v) == MeaningOf(w) {
      SortedMeaningUnique(d, SortDeep(d, v), SortDeep(d, w));
    }
    if Canonical(d, v) == Canonical(d, w) {
      assert Canonical(d, v) + "" == Canonical(d, w) + "";
      WriteUnique(d, SortDeep(d, v), SortDeep(d, w), "", "");
    }
  }

  /** Reading a canonical text gives back the value it was made from, with the
      entries of its objects in key order, and leaves what follows untouched. */
  lemma CanonicalReadBack(d: Dialect, v: Json, s: string)
    requires WellFormed(v) && Ends(s)
    ensures var r := ReadValue(Canonical(d, v) + s);
      r.Some? && r.value.1 == s && SortedDeep(d, r.value.0) && MeaningOf(r.value.0) == MeaningOf(v)
  {
    ReadBack(d, SortDeep(d, v), s);
    SortDeepMeaning(d, v);
  }

  /** No canonical text is a proper prefix of a longer text that goes on with a
      delimiter: what a reader has to find is fixed by the text alone. */
  lemma CanonicalTextDelimits(d: Dialect, v: Json, w: Json, s: string, t: string)
    requires WellFormed(v) && WellFormed(w) && Ends(s) && Ends(t)
    requires Canonical(d, v) + s == Canonical(d, w) + t
    ensures MeaningOf(v) == MeaningOf(w) && s == t
  {
    SortDeepMeaning(d, v);
    SortDeepMeaning(d, w);
    WriteUnique(d, SortDeep(d, v), SortDeep(d, w), s, t);
  }
}
