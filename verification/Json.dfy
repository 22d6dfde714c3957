/** JSON values and the three canonical writers that have to agree on them.
    A value keeps the entries of an object in the order in which they were
    given; `MeaningOf` forgets that order. */
module Json {

  datatype Json =
    | Null
    | Bool(b: bool)
    | Num(n: int)
    | Str(s: string)
    | Arr(items: seq<Json>)
    | Obj(entries: seq<Entry>)

  datatype Entry = Entry(key: string, value: Json)

  /** What a value says, with objects as finite maps. */
  datatype Meaning =
    | NullMeaning
    | BoolMeaning(b: bool)
    | NumMeaning(n: int)
    | StrMeaning(s: string)
    | ArrMeaning(items: seq<Meaning>)
    | ObjMeaning(fields: map<string, Meaning>)

  ghost function MeaningOf(v: Json): Meaning
    decreases v, 1
  {
    match v
    case Null => NullMeaning
    case Bool(b) => BoolMeaning(b)
    case Num(n) => NumMeaning(n)
    case Str(s) => StrMeaning(s)
    case Arr(items) => ArrMeaning(MeaningOfItems(items))
    case Obj(entries) => ObjMeaning(MeaningOfEntries(entries))
  }

  ghost function MeaningOfItems(xs: seq<Json>): (r: seq<Meaning>)
    decreases xs, 0
  {
    if xs == [] then [] else [MeaningOf(xs[0])] + MeaningOfItems(xs[1..])
  }

  ghost function MeaningOfEntries(es: seq<Entry>): (r: map<string, Meaning>)
    ensures forall k :: k in r <==> HasKey(es, k)
    decreases es, 0
  {
    if es == [] then map[] else MeaningOfEntries(es[1..])[es[0].key := MeaningOf(es[0].value)]
  }

  ghost predicate HasKey(es: seq<Entry>, k: string) {
    exists e :: e in es && e.key == k
  }

  ghost predicate DistinctKeys(es: seq<Entry>) {
    es != [] ==> !HasKey(es[1..], es[0].key) && DistinctKeys(es[1..])
  }

  /** Object keys are distinct, at every depth: what a `serde_json` map, a
      JavaScript object and a Python dict guarantee by construction. */
  ghost predicate WellFormed(v: Json) {
    match v
    case Arr(items) => forall x :: x in items ==> WellFormed(x)
    case Obj(entries) => DistinctKeys(entries) && forall e :: e in entries ==> WellFormed(e.value)
    case _ => true
  }

  /** `serde_json` (the audit crate), `JSON.stringify` (the extension) and
      `json.dumps` with its default `ensure_ascii` (the documented oracle). */
  datatype Dialect = Rust | JavaScript | Python

  // ---- Key order -----------------------------------------------------------

  /** What a dialect compares keys by: scalar values, or UTF-16 code units. */
  function KeyRank(d: Dialect, s: string): (r: seq<nat>) {
    if s == [] then [] else RankOf(d, s[0]) + KeyRank(d, s[1..])
  }

  function RankOf(d: Dialect, c: char): (r: seq<nat>)
    ensures |r| == if d.JavaScript? && c as nat >= 0x10000 then 2 else 1
  {
    if d.JavaScript? then Utf16(c) else [c as nat]
  }

  function Utf16(c: char): (r: seq<nat>)
    ensures |r| == if c as nat < 0x10000 then 1 else 2
  {
    var n := c as nat;
    if n < 0x10000 then [n] else [HighSurrogate(c), LowSurrogate(c)]
  }

  function HighSurrogate(c: char): (r: nat)
    requires c as nat >= 0x10000
    ensures 0xD800 <= r < 0xDC00
  {
    0xD800 + (c as nat - 0x10000) / 0x400
  }

  function LowSurrogate(c: char): (r: nat)
    requires c as nat >= 0x10000
    ensures 0xDC00 <= r < 0xE000
  {
    0xDC00 + (c as nat - 0x10000) % 0x400
  }

  predicate LexLess(a: seq<nat>, b: seq<nat>) {
    b != [] && (a == [] || a[0] < b[0] || (a[0] == b[0] && LexLess(a[1..], b[1..])))
  }

  predicate KeyLess(d: Dialect, a: string, b: string) {
    LexLess(KeyRank(d, a), KeyRank(d, b))
  }

  function Insert(d: Dialect, e: Entry, es: seq<Entry>): (r: seq<Entry>)
    ensures multiset(r) == multiset([e] + es)
  {
    if es == [] || KeyLess(d, e.key, es[0].key) then [e] + es
    else
      assert es == [es[0]] + es[1..];
      [es[0]] + Insert(d, e, es[1..])
  }

  function SortEntries(d: Dialect, es: seq<Entry>): (r: seq<Entry>)
    ensures multiset(r) == multiset(es)
  {
    if es == [] then []
    else
      assert es == [es[0]] + es[1..];
      Insert(d, es[0], SortEntries(d, es[1..]))
  }

  /** Every object's entries in key order, at every depth. */
  function SortDeep(d: Dialect, v: Json): (r: Json)
    decreases v, 1
  {
    match v
    case Arr(items) => Arr(SortItems(d, items))
    case Obj(entries) => Obj(SortEntries(d, SortValues(d, entries)))
    case _ => v
  }

  function SortItems(d: Dialect, xs: seq<Json>): (r: seq<Json>)
    ensures |r| == |xs|
    decreases xs, 0
  {
    if xs == [] then [] else [SortDeep(d, xs[0])] + SortItems(d, xs[1..])
  }

  function SortValues(d: Dialect, es: seq<Entry>): (r: seq<Entry>)
    ensures |r| == |es|
    decreases es, 0
  {
    if es == [] then []
    else [Entry(es[0].key, SortDeep(d, es[0].value))] + SortValues(d, es[1..])
  }

  // ---- Text ----------------------------------------------------------------

  function HexDigit(n: nat): (r: char)
    requires n < 16
    ensures r as nat == if n < 10 then 48 + n else 87 + n
  {
    (if n < 10 then 48 + n else 87 + n) as char
  }

  function Hex4(n: nat): (r: string)
    requires n < 0x10000
    ensures |r| == 4
  {
    [HexDigit(n / 4096), HexDigit(n / 256 % 16), HexDigit(n / 16 % 16), HexDigit(n % 16)]
  }

  /** One character inside a string literal (RFC 8259, section 7). */
  function Escape(d: Dialect, c: char): (r: string)
    ensures r != []
  {
    var n := c as nat;
    if c == '\"' then "\\\""
    else if c == '\\' then "\\\\"
    else if n == 8 then "\\b"
    else if n == 9 then "\\t"
    else if n == 10 then "\\n"
    else if n == 12 then "\\f"
    else if n == 13 then "\\r"
    else if n < 0x20 then "\\u" + Hex4(n)
    else if d.Python? && n >= 0x10000 then
      "\\u" + Hex4(HighSurrogate(c)) + "\\u" + Hex4(LowSurrogate(c))
    else if d.Python? && n >= 0x7F then "\\u" + Hex4(n)
    else [c]
  }

  function EscapeAll(d: Dialect, s: string): string {
    if s == [] then [] else Escape(d, s[0]) + EscapeAll(d, s[1..])
  }

  function Quote(d: Dialect, s: string): string {
    "\"" + EscapeAll(d, s) + "\""
  }

  function Digits(n: nat): (r: string)
    ensures r != []
  {
    if n < 10 then [HexDigit(n)] else Digits(n / 10) + [HexDigit(n % 10)]
  }

  function Decimal(n: int): string {
    if n < 0 then "-" + Digits(-n) else Digits(n)
  }

  /** Compact text of a value, entries in the order they stand in. */
  function Write(d: Dialect, v: Json): string
    decreases v, 1
  {
    match v
    case Null => "null"
    case Bool(b) => if b then "true" else "false"
    case Num(n) => Decimal(n)
    case Str(s) => Quote(d, s)
    case Arr(items) => "[" + WriteItems(d, items, true)
    case Obj(entries) => "{" + WriteEntries(d, entries, true)
  }

  function Comma(first: bool): string {
    if first then "" else ","
  }

  /** The rest of an array, up to and including its closing bracket. */
  function WriteItems(d: Dialect, xs: seq<Json>, first: bool): string
    decreases xs, 0
  {
    if xs == [] then "]" else Comma(first) + Write(d, xs[0]) + WriteItems(d, xs[1..], false)
  }

  function WriteEntries(d: Dialect, es: seq<Entry>, first: bool): string
    decreases es, 0
  {
    if es == [] then "}"
    else
      Comma(first) + Quote(d, es[0].key) + ":" + Write(d, es[0].value) + WriteEntries(d, es[1..], false)
  }

  /** The canonical text of a value in a dialect. */
  function Canonical(d: Dialect, v: Json): string {
    Write(d, SortDeep(d, v))
  }
}
