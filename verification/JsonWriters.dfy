/** The two writers of the repository and the oracle they are documented to
    match: the audit crate's buffer-appending writer, the extension's
    join-based writer, and Python's `json.dumps`. */
module JsonWriters {
  import opened Json
  import opened JsonDecoding
  import opened JsonCanonical

  lemma {:induction false} InsertThenSortValues(d: Dialect, e: Entry, es: seq<Entry>)
    ensures SortValues(d, Insert(d, e, es))
         == Insert(d, Entry(e.key, SortDeep(d, e.value)), SortValues(d, es))
  {
    if es == [] || KeyLess(d, e.key, es[0].key) {
      assert ([e] + es)[1..] == es;
    } else {
      InsertThenSortValues(d, e, es[1..]);
      var tail := Insert(d, e, es[1..]);
      assert ([es[0]] + tail)[1..] == tail;
      assert SortValues(d, es)[1..] == SortValues(d, es[1..]);
    }
  }

  /** Ordering the entries first and the values later gives the same list. */
  lemma {:induction false} SortsCommute(d: Dialect, es: seq<Entry>)
    ensures SortEntries(d, SortValues(d, es)) == SortValues(d, SortEntries(d, es))
  {
    if es != [] {
      SortsCommute(d, es[1..]);
      InsertThenSortValues(d, es[0], SortEntries(d, es[1..]));
      var head, rest := Entry(es[0].key, SortDeep(d, es[0].value)), SortValues(d, es[1..]);
      assert SortValues(d, es) == [head] + rest && ([head] + rest)[1..] == rest;
    }
  }

  lemma {:induction false} SortValuesAt(d: Dialect, es: seq<Entry>, i: nat)
    requires i < |es|
    ensures SortValues(d, es)[i] == Entry(es[i].key, SortDeep(d, es[i].value))
    ensures SortValues(d, es)[i..] == SortValues(d, es[i..])
  {
    if i > 0 {
      SortValuesAt(d, es[1..], i - 1);
      assert SortValues(d, es)[i..] == SortValues(d, es[1..])[i - 1..];
      assert es[1..][i - 1..] == es[i..];
    }
  }

  // ---- crates/fabric-audit: write_canonical --------------------------------

  /** The byte vector a canonical text grows in. */
  class TextBuffer {
    var text: string

    constructor ()
      ensures text == ""
    {
      text := "";
    }

    method Push(c: char)
      modifies this
      ensures text == old(text) + [c]
    {
      text := text + [c];
    }

    method Extend(s: string)
      modifies this
      ensures text == old(text) + s
    {
      text := text + s;
    }
  }

  lemma ItemWritten(d: Dialect, whole: string, text: string, all: seq<Json>, i: nat)
    requires i < |all| && whole == text + WriteItems(d, all[i..], i == 0)
    ensures whole == text + Comma(i == 0) + Write(d, all[i]) + WriteItems(d, all[i + 1..], false)
  {
    assert all[i..][1..] == all[i + 1..];
    Assoc(Comma(i == 0), Write(d, all[i]), WriteItems(d, all[i + 1..], false));
    Assoc(text, Comma(i == 0), Write(d, all[i]) + WriteItems(d, all[i + 1..], false));
    Assoc(text + Comma(i == 0), Write(d, all[i]), WriteItems(d, all[i + 1..], false));
  }

  lemma EntryWritten(d: Dialect, whole: string, text: string, all: seq<Entry>, i: nat)
    requires i < |all| && whole == text + WriteEntries(d, all[i..], i == 0)
    ensures whole == text + Comma(i == 0) + Quote(d, all[i].key) + ":" + Write(d, all[i].value)
                     + WriteEntries(d, all[i + 1..], false)
  {
    var a, b, c, e := Comma(i == 0), Quote(d, all[i].key), Write(d, all[i].value), WriteEntries(d, all[i + 1..], false);
    assert all[i..][1..] == all[i + 1..];
    calc {
      whole;
      text + (a + b + ":" + c + e);
      { Assoc(text, a + b + ":" + c, e); }
      text + (a + b + ":" + c) + e;
      { Assoc(text, a + b + ":", c); }
      text + (a + b + ":") + c + e;
      { Assoc(text, a + b, ":"); }
      text + (a + b) + ":" + c + e;
      { Assoc(text, a, b); }
      text + a + b + ":" + c + e;
    }
  }

  /** Appends the canonical text of `value` and touches nothing before it. */
  method WriteCanonical(value: Json, out: TextBuffer)
    modifies out
    ensures out.text == old(out.text) + Canonical(Rust, value)
    decreases value, 1
  {
    match value {
      case Obj(entries) =>
        WriteObject(value, out);
      case Arr(items) =>
        WriteArray(value, out);
      case _ =>
        out.Extend(Write(Rust, value));
    }
  }

  /** One entry of an object: comma, quoted key, colon, value. */
  method WriteMember(e: Entry, first: bool, out: TextBuffer)
    modifies out
    ensures out.text == old(out.text) + Comma(first) + Quote(Rust, e.key) + ":" + Canonical(Rust, e.value)
    decreases e.value, 2
  {
    if !first {
      out.Push(',');
    }
    assert out.text == old(out.text) + Comma(first);
    out.Extend(Quote(Rust, e.key));
    out.Push(':');
    WriteCanonical(e.value, out);
  }

  lemma SortedInside(d: Dialect, value: Json)
    requires value.Obj?
    ensures forall e :: e in SortEntries(d, value.entries) ==> e.value < value
  {
    SameElements(d, value.entries);
  }

  /** The object branch of the writer: entries in key order. */
  method WriteObject(value: Json, out: TextBuffer)
    requires value.Obj?
    modifies out
    ensures out.text == old(out.text) + Canonical(Rust, value)
    decreases value, 0
  {
    ghost var was := out.text;
    var sorted := SortEntries(Rust, value.entries);
    ghost var all := SortValues(Rust, sorted);
    ghost var whole := was + "{" + WriteEntries(Rust, all, true);
    SortedInside(Rust, value);
    out.Push('{');
    for i := 0 to |sorted|
      invariant whole == out.text + WriteEntries(Rust, all[i..], i == 0)
    {
      SortValuesAt(Rust, sorted, i);
      EntryWritten(Rust, whole, out.text, all, i);
      WriteMember(sorted[i], i == 0, out);
    }
    out.Push('}');
    SortsCommute(Rust, value.entries);
    Assoc(was, "{", WriteEntries(Rust, all, true));
  }

  /** One element of an array: comma, value. */
  method WriteElement(x: Json, first: bool, out: TextBuffer)
    modifies out
    ensures out.text == old(out.text) + Comma(first) + Canonical(Rust, x)
    decreases x, 2
  {
    if !first {
      out.Push(',');
    }
    assert out.text == old(out.text) + Comma(first);
    WriteCanonical(x, out);
  }

  /** The array branch of the writer. */
  method WriteArray(value: Json, out: TextBuffer)
    requires value.Arr?
    modifies out
    ensures out.text == old(out.text) + Canonical(Rust, value)
    decreases value, 0
  {
    ghost var was := out.text;
    var items := value.items;
    ghost var all := SortItems(Rust, items);
    ghost var whole := was + "[" + WriteItems(Rust, all, true);
    out.Push('[');
    for i := 0 to |items|
      invariant whole == out.text + WriteItems(Rust, all[i..], i == 0)
    {
      SortItemsAt(Rust, items, i);
      ItemWritten(Rust, whole, out.text, all, i);
      WriteElement(items[i], i == 0, out);
    }
    out.Push(']');
    Assoc(was, "[", WriteItems(Rust, all, true));
  }

  lemma {:induction false} SortItemsAt(d: Dialect, xs: seq<Json>, i: nat)
    requires i < |xs|
    ensures SortItems(d, xs)[i] == SortDeep(d, xs[i])
    ensures SortItems(d, xs)[i..] == SortItems(d, xs[i..])
  {
    if i > 0 {
      SortItemsAt(d, xs[1..], i - 1);
      assert SortItems(d, xs)[i..] == SortItems(d, xs[1..])[i - 1..];
      assert xs[1..][i - 1..] == xs[i..];
    }
  }

  method AuditCanonicalJson(payload: Json) returns (text: string)
    ensures text == Canonical(Rust, payload)
  {
    var out := new TextBuffer();
    WriteCanonical(payload, out);
    text := out.text;
  }

  // ---- vscode/src/hubClient.ts: canonicalJson ------------------------------

  function Join(parts: seq<string>, separator: string): string {
    if parts == [] then ""
    else if |parts| == 1 then parts[0]
    else parts[0] + separator + Join(parts[1..], separator)
  }

  /** JavaScript numbers are doubles. `shown` gives the integer whose digits
      `JSON.stringify` prints for an integer of a payload: itself up to 2^53,
      its nearest double in as few digits as tell it apart beyond. */
  function CanonicalJson(value: Json, shown: int -> int): string
    decreases value, 1
  {
    match value
    case Null => "null"
    case Bool(b) => if b then "true" else "false"
    case Num(n) => Decimal(shown(n))
    case Str(s) => Quote(JavaScript, s)
    case Arr(items) => "[" + Join(ItemParts(items, shown), ",") + "]"
    case Obj(entries) =>
      SortedInside(JavaScript, value);
      "{" + Join(MemberParts(value, SortEntries(JavaScript, entries), shown), ",") + "}"
  }

  function ItemParts(items: seq<Json>, shown: int -> int): (r: seq<string>)
    ensures |r| == |items|
    decreases items, 0
  {
    seq(|items|, i requires 0 <= i < |items| => CanonicalJson(items[i], shown))
  }

  function MemberParts(value: Json, sorted: seq<Entry>, shown: int -> int): (r: seq<string>)
    requires forall e :: e in sorted ==> e.value < value
    ensures |r| == |sorted|
    decreases value, 0
  {
    seq(|sorted|, i requires 0 <= i < |sorted| =>
      Quote(JavaScript, sorted[i].key) + ":" + CanonicalJson(sorted[i].value, shown))
  }

  // ---- A value with its numbers as they are shown --------------------------

  function Rounded(v: Json, shown: int -> int): (r: Json)
    decreases v, 1
  {
    match v
    case Num(n) => Num(shown(n))
    case Arr(items) => Arr(RoundedItems(items, shown))
    case Obj(entries) => Obj(RoundedEntries(entries, shown))
    case _ => v
  }

  function RoundedItems(xs: seq<Json>, shown: int -> int): (r: seq<Json>)
    ensures |r| == |xs|
    decreases xs, 0
  {
    if xs == [] then [] else [Rounded(xs[0], shown)] + RoundedItems(xs[1..], shown)
  }

  function RoundedEntries(es: seq<Entry>, shown: int -> int): (r: seq<Entry>)
    ensures |r| == |es|
    decreases es, 0
  {
    if es == [] then []
    else [Entry(es[0].key, Rounded(es[0].value, shown))] + RoundedEntries(es[1..], shown)
  }

  lemma {:induction false} RoundedItemsAt(xs: seq<Json>, shown: int -> int, i: nat)
    requires i < |xs|
    ensures RoundedItems(xs, shown)[i] == Rounded(xs[i], shown)
  {
    if i > 0 {
      RoundedItemsAt(xs[1..], shown, i - 1);
    }
  }

  lemma {:induction false} RoundedEntriesAt(es: seq<Entry>, shown: int -> int, i: nat)
    requires i < |es|
    ensures RoundedEntries(es, shown)[i] == Entry(es[i].key, Rounded(es[i].value, shown))
  {
    if i > 0 {
      RoundedEntriesAt(es[1..], shown, i - 1);
    }
  }

  lemma {:induction false} InsertThenRound(d: Dialect, e: Entry, es: seq<Entry>, shown: int -> int)
    ensures RoundedEntries(Insert(d, e, es), shown)
         == Insert(d, Entry(e.key, Rounded(e.value, shown)), RoundedEntries(es, shown))
  {
    if es == [] || KeyLess(d, e.key, es[0].key) {
      assert ([e] + es)[1..] == es;
    } else {
      InsertThenRound(d, e, es[1..], shown);
      var r := Insert(d, e, es[1..]);
      assert ([es[0]] + r)[1..] == r;
      assert RoundedEntries(es, shown)[1..] == RoundedEntries(es[1..], shown);
    }
  }

  /** Ordering the entries first and rounding later gives the same list. */
  lemma {:induction false} RoundingKeepsOrder(d: Dialect, es: seq<Entry>, shown: int -> int)
    ensures SortEntries(d, RoundedEntries(es, shown)) == RoundedEntries(SortEntries(d, es), shown)
  {
    if es != [] {
      var e, r := Entry(es[0].key, Rounded(es[0].value, shown)), RoundedEntries(es[1..], shown);
      RoundingKeepsOrder(d, es[1..], shown);
      assert ([e] + r)[1..] == r;
      InsertThenRound(d, es[0], SortEntries(d, es[1..]), shown);
    }
  }

  lemma ItemsComma(d: Dialect, xs: seq<Json>)
    requires xs != []
    ensures WriteItems(d, xs, true) == Write(d, xs[0]) + WriteItems(d, xs[1..], false)
    ensures WriteItems(d, xs, false) == "," + WriteItems(d, xs, true)
  {
    var w, r := Write(d, xs[0]), WriteItems(d, xs[1..], false);
    assert "" + w == w;
    Assoc(",", w, r);
  }

  lemma EntriesComma(d: Dialect, es: seq<Entry>)
    requires es != []
    ensures WriteEntries(d, es, true)
         == Quote(d, es[0].key) + ":" + Write(d, es[0].value) + WriteEntries(d, es[1..], false)
    ensures WriteEntries(d, es, false) == "," + WriteEntries(d, es, true)
  {
    var k, w, r := Quote(d, es[0].key), Write(d, es[0].value), WriteEntries(d, es[1..], false);
    assert "" + k == k;
    Assoc(",", k, ":");
    Assoc(",", k + ":", w);
    Assoc(",", k + ":" + w, r);
  }

  lemma {:induction false} JoinItems(d: Dialect, all: seq<Json>, parts: seq<string>)
    requires |parts| == |all| && forall i :: 0 <= i < |all| ==> parts[i] == Write(d, all[i])
    ensures Join(parts, ",") + "]" == WriteItems(d, all, true)
    decreases |all|
  {
    if all != [] {
      ItemsComma(d, all);
      if |all| > 1 {
        JoinItems(d, all[1..], parts[1..]);
        ItemsComma(d, all[1..]);
        Assoc(parts[0], ",", Join(parts[1..], ",") + "]");
        Assoc(parts[0] + ",", Join(parts[1..], ","), "]");
      }
    }
  }

  lemma {:induction false} JoinEntries(d: Dialect, all: seq<Entry>, parts: seq<string>)
    requires |parts| == |all|
    requires forall i :: 0 <= i < |all| ==> parts[i] == Quote(d, all[i].key) + ":" + Write(d, all[i].value)
    ensures Join(parts, ",") + "}" == WriteEntries(d, all, true)
    decreases |all|
  {
    if all != [] {
      EntriesComma(d, all);
      if |all| > 1 {
        JoinEntries(d, all[1..], parts[1..]);
        EntriesComma(d, all[1..]);
        Assoc(parts[0], ",", Join(parts[1..], ",") + "}");
        Assoc(parts[0] + ",", Join(parts[1..], ","), "}");
      }
    }
  }

  /** The join-based writer computes the canonical text, in its key order, of
      the value with its numbers as they are shown. */
  lemma {:induction false} CanonicalJsonIsCanonical(value: Json, shown: int -> int)
    ensures CanonicalJson(value, shown) == Canonical(JavaScript, Rounded(value, shown))
    decreases value, 2
  {
    match value
    case Arr(items) => ArrayText(value, shown);
    case Obj(entries) => ObjectText(value, shown);
    case _ =>
  }

  lemma {:induction false} ArrayText(value: Json, shown: int -> int)
    requires value.Arr?
    ensures CanonicalJson(value, shown) == Canonical(JavaScript, Rounded(value, shown))
    decreases value, 1
  {
    var items, parts := value.items, ItemParts(value.items, shown);
    var all := SortItems(JavaScript, RoundedItems(items, shown));
    ItemPartsAreTexts(items, shown);
    JoinItems(JavaScript, all, parts);
    Assoc("[", Join(parts, ","), "]");
    assert SortDeep(JavaScript, Rounded(value, shown)) == Arr(all);
  }

  lemma {:induction false} ObjectText(value: Json, shown: int -> int)
    requires value.Obj?
    ensures CanonicalJson(value, shown) == Canonical(JavaScript, Rounded(value, shown))
    decreases value, 1
  {
    var sorted := SortEntries(JavaScript, value.entries);
    SortedInside(JavaScript, value);
    var all, parts := SortValues(JavaScript, RoundedEntries(sorted, shown)), MemberParts(value, sorted, shown);
    SortedRounding(value, shown);
    MemberPartsAreTexts(value, sorted, shown);
    JoinEntries(JavaScript, all, parts);
    Assoc("{", Join(parts, ","), "}");
  }

  lemma SortedRounding(value: Json, shown: int -> int)
    requires value.Obj?
    ensures SortDeep(JavaScript, Rounded(value, shown))
         == Obj(SortValues(JavaScript, RoundedEntries(SortEntries(JavaScript, value.entries), shown)))
  {
    RoundingKeepsOrder(JavaScript, value.entries, shown);
    SortsCommute(JavaScript, RoundedEntries(value.entries, shown));
  }

  lemma {:induction false} ItemPartsAreTexts(items: seq<Json>, shown: int -> int)
    ensures var all := SortItems(JavaScript, RoundedItems(items, shown));
      forall i :: 0 <= i < |items| ==> ItemParts(items, shown)[i] == Write(JavaScript, all[i])
    decreases items, 0
  {
    forall i | 0 <= i < |items|
      ensures ItemParts(items, shown)[i] == Write(JavaScript, SortItems(JavaScript, RoundedItems(items, shown))[i])
    {
      SortItemsAt(JavaScript, RoundedItems(items, shown), i);
      RoundedItemsAt(items, shown, i);
      CanonicalJsonIsCanonical(items[i], shown);
    }
  }

  lemma {:induction false} MemberPartsAreTexts(value: Json, sorted: seq<Entry>, shown: int -> int)
    requires forall e :: e in sorted ==> e.value < value
    ensures var all := SortValues(JavaScript, RoundedEntries(sorted, shown));
      forall i :: 0 <= i < |sorted| ==>
        MemberParts(value, sorted, shown)[i] == Quote(JavaScript, all[i].key) + ":" + Write(JavaScript, all[i].value)
    decreases value, 0
  {
    forall i | 0 <= i < |sorted|
      ensures var all := SortValues(JavaScript, RoundedEntries(sorted, shown));
        MemberParts(value, sorted, shown)[i] == Quote(JavaScript, all[i].key) + ":" + Write(JavaScript, all[i].value)
    {
      SortValuesAt(JavaScript, RoundedEntries(sorted, shown), i);
      RoundedEntriesAt(sorted, shown, i);
      assert sorted[i] in sorted;
      CanonicalJsonIsCanonical(sorted[i].value, shown);
    }
  }
}
