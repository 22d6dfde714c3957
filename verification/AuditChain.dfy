/** The hash-chained audit log. SHA-256 with its hex encoding is a parameter
    `hash`; nothing is assumed about it except, for tamper evidence, that its
    results are hex and so hold no separator. Where a proof would need
    collision freedom, the conclusion names the two colliding texts instead. */
module AuditChain {
  import opened Prelude
  import opened Json
  import opened JsonReader
  import opened JsonDecoding
  import opened JsonCanonical
  import opened JsonWriters

  const GENESIS_LENGTH := 64

  function Zeros(n: nat): (r: string) {
    seq(n, _ => '0')
  }

  /** `AUDIT_GENESIS_HASH`: 64 ASCII zeros. */
  function Genesis(): (r: string) {
    Zeros(GENESIS_LENGTH)
  }

  const SEPARATOR := '|'

  /** The text that is hashed for an event. */
  function Frame(prev: string, kind: string, payload: Json): string {
    prev + ([SEPARATOR] + (kind + ([SEPARATOR] + Canonical(Rust, payload))))
  }

  // ---- One frame, one event ------------------------------------------------

  /** Where a scan of JSON text stands: outside string literals, inside one,
      after a backslash, or past a character that cannot stand outside. */
  datatype Mode = Outside | Inside | Escaped | Broken

  function Next(m: Mode, c: char): Mode {
    match m
    case Outside => if c == '\"' then Inside else if c == '\\' || c == SEPARATOR then Broken else Outside
    case Inside => if c == '\"' then Outside else if c == '\\' then Escaped else Inside
    case Escaped => Inside
    case Broken => Broken
  }

  function Scan(m: Mode, s: string): Mode
    decreases |s|
  {
    if s == [] then m else Scan(Next(m, s[0]), s[1..])
  }

  lemma {:induction false} ScanConcat(m: Mode, a: string, b: string)
    ensures Scan(m, a + b) == Scan(Scan(m, a), b)
    decreases |a|
  {
    if a == [] {
      assert a + b == b;
    } else {
      assert (a + b)[0] == a[0] && (a + b)[1..] == a[1..] + b;
      ScanConcat(Next(m, a[0]), a[1..], b);
    }
  }

  lemma {:induction false} ScanPlain(m: Mode, s: string)
    requires m == Outside || m == Inside
    requires forall i :: 0 <= i < |s| ==> s[i] != '\"' && s[i] != '\\' && s[i] != SEPARATOR
    ensures Scan(m, s) == m
    decreases |s|
  {
    if s != [] {
      ScanPlain(m, s[1..]);
    }
  }

  lemma ScanEscape(c: char)
    ensures Scan(Inside, Escape(Rust, c)) == Inside
  {
    var e := Escape(Rust, c);
    EscapeShape(Rust, c);
    if |e| == 1 {
      assert e[1..] == [];
    } else {
      assert Scan(Inside, e) == Scan(Escaped, e[1..]) == Scan(Inside, e[1..][1..]);
      assert e[1..][1..] == if |e| == 6 then Hex4(c as nat) else [];
      ScanPlain(Inside, e[1..][1..]);
    }
  }

  lemma {:induction false} ScanBody(s: string)
    ensures Scan(Inside, EscapeAll(Rust, s)) == Inside
  {
    if s != [] {
      ScanEscape(s[0]);
      ScanBody(s[1..]);
      ScanConcat(Inside, Escape(Rust, s[0]), EscapeAll(Rust, s[1..]));
    }
  }

  lemma ScanQuote(s: string)
    ensures Scan(Outside, Quote(Rust, s)) == Outside
  {
    ScanBody(s);
    ScanConcat(Outside, "\"", EscapeAll(Rust, s));
    ScanConcat(Outside, "\"" + EscapeAll(Rust, s), "\"");
    assert "\""[1..] == "";
  }

  /** JSON text keeps separators and backslashes inside its string literals and
      ends outside of them. */
  lemma {:induction false} ScanWrite(v: Json)
    ensures Scan(Outside, Write(Rust, v)) == Outside
    decreases v, 1
  {
    match v
    case Num(n) =>
      DigitsRead(if n < 0 then -n else n);
      ScanPlain(Outside, Decimal(n));
    case Str(s) => ScanQuote(s);
    case Arr(items) =>
      ScanItems(items, true);
      ScanConcat(Outside, "[", WriteItems(Rust, items, true));
      ScanPlain(Outside, "[");
    case Obj(entries) =>
      ScanEntries(entries, true);
      ScanConcat(Outside, "{", WriteEntries(Rust, entries, true));
      ScanPlain(Outside, "{");
    case _ => ScanPlain(Outside, Write(Rust, v));
  }

  lemma {:induction false} ScanItems(xs: seq<Json>, first: bool)
    ensures Scan(Outside, WriteItems(Rust, xs, first)) == Outside
    decreases xs, 0
  {
    if xs == [] {
      ScanPlain(Outside, "]");
    } else {
      ScanPlain(Outside, Comma(first));
      ScanWrite(xs[0]);
      ScanItems(xs[1..], false);
      ScanConcat(Outside, Comma(first), Write(Rust, xs[0]));
      ScanConcat(Outside, Comma(first) + Write(Rust, xs[0]), WriteItems(Rust, xs[1..], false));
    }
  }

  lemma {:induction false} ScanEntries(es: seq<Entry>, first: bool)
    ensures Scan(Outside, WriteEntries(Rust, es, first)) == Outside
    decreases es, 0
  {
    if es == [] {
      ScanPlain(Outside, "}");
    } else {
      var k, w := Quote(Rust, es[0].key), Write(Rust, es[0].value);
      ScanPlain(Outside, Comma(first));
      ScanQuote(es[0].key);
      ScanPlain(Outside, ":");
      ScanWrite(es[0].value);
      ScanEntries(es[1..], false);
      ScanConcat(Outside, Comma(first), k);
      ScanConcat(Outside, Comma(first) + k, ":");
      ScanConcat(Outside, Comma(first) + k + ":", w);
      ScanConcat(Outside, Comma(first) + k + ":" + w, WriteEntries(Rust, es[1..], false));
    }
  }

  lemma {:induction false} ScanBroken(s: string)
    ensures Scan(Broken, s) == Broken
  {
    if s != [] {
      ScanBroken(s[1..]);
    }
  }

  /** Scans that start on opposite sides of a quote stay on opposite sides. */
  lemma {:induction false} ScansDiffer(s: string)
    ensures !(Scan(Outside, s) == Outside && Scan(Inside, s) == Outside)
  {
    if s != [] {
      if Next(Outside, s[0]) == Broken {
        ScanBroken(s[1..]);
      } else {
        ScansDiffer(s[1..]);
      }
    }
  }

  /** JSON text never has a separator followed by JSON text at its end. */
  lemma NoInnerPayload(v: Json, w: Json, x: string)
    ensures Write(Rust, v) != x + ([SEPARATOR] + Write(Rust, w))
  {
    if Write(Rust, v) == x + ([SEPARATOR] + Write(Rust, w)) {
      ScanWrite(v);
      ScanWrite(w);
      var m := Scan(Outside, x);
      ScanConcat(Outside, x, [SEPARATOR] + Write(Rust, w));
      ScanConcat(m, [SEPARATOR], Write(Rust, w));
      assert Scan(m, [SEPARATOR]) == Next(m, SEPARATOR) by {
        assert [SEPARATOR][1..] == [];
      }
      ScanBroken(Write(Rust, w));
      ScansDiffer(Write(Rust, w));
      assert false;
    }
  }

  lemma LongerKindImpossible(k: string, l: string, v: Json, w: Json)
    requires k + ([SEPARATOR] + Write(Rust, v)) == l + ([SEPARATOR] + Write(Rust, w))
    ensures |k| >= |l|
  {
    if |k| < |l| {
      var whole := l + ([SEPARATOR] + Write(Rust, w));
      var x := l[|k| + 1..];
      assert Write(Rust, v) == whole[|k| + 1..] == x + ([SEPARATOR] + Write(Rust, w));
      NoInnerPayload(v, w, x);
      assert false;
    }
  }

  ghost predicate SeparatorFree(s: string) {
    SEPARATOR !in s
  }

  lemma FirstNotLater(p: string, q: string, x: string, y: string)
    requires SeparatorFree(p) && p + ([SEPARATOR] + x) == q + ([SEPARATOR] + y)
    ensures |p| <= |q|
  {
    var whole := p + ([SEPARATOR] + x);
    assert forall i :: 0 <= i < |p| ==> whole[i] == p[i] && p[i] in p;
    assert (q + ([SEPARATOR] + y))[|q|] == SEPARATOR;
  }

  lemma FirstSeparator(p: string, q: string, x: string, y: string)
    requires SeparatorFree(p) && SeparatorFree(q)
    requires p + ([SEPARATOR] + x) == q + ([SEPARATOR] + y)
    ensures p == q && x == y
  {
    FirstNotLater(p, q, x, y);
    FirstNotLater(q, p, y, x);
    PrefixOfEqual(p, q, [SEPARATOR] + x, [SEPARATOR] + y);
    PrefixOfEqual([SEPARATOR], [SEPARATOR], x, y);
  }

  /** A framed text names its previous hash, its kind and the meaning of its
      payload. The kind may contain separators; the previous hash may not. */
  lemma FrameUnique(p: string, k: string, v: Json, q: string, l: string, w: Json)
    requires SeparatorFree(p) && SeparatorFree(q) && WellFormed(v) && WellFormed(w)
    ensures Frame(p, k, v) == Frame(q, l, w) <==> p == q && k == l && MeaningOf(v) == MeaningOf(w)
  {
    CanonicalTextDecidesMeaning(Rust, v, w);
    if Frame(p, k, v) == Frame(q, l, w) {
      FirstSeparator(p, q, k + ([SEPARATOR] + Canonical(Rust, v)), l + ([SEPARATOR] + Canonical(Rust, w)));
      LongerKindImpossible(k, l, SortDeep(Rust, v), SortDeep(Rust, w));
      LongerKindImpossible(l, k, SortDeep(Rust, w), SortDeep(Rust, v));
      PrefixOfEqual(k, l, [SEPARATOR] + Canonical(Rust, v), [SEPARATOR] + Canonical(Rust, w));
      PrefixOfEqual([SEPARATOR], [SEPARATOR], Canonical(Rust, v), Canonical(Rust, w));
    }
  }

  // ---- What the hashed text says -------------------------------------------

  /** The text in front of the first separator, and the text behind it. */
  function CutFirst(text: string): Option<(string, string)> {
    var i := IndexOf(text, '|');
    if i == |text| then None else Some((text[..i], text[i + 1..]))
  }

  /** A reader of hashed texts: previous hash, kind, payload, nothing left. */
  function ReadFrame(text: string): Option<(string, string, Json)> {
    var first := CutFirst(text);
    if first.None? then None
    else
      var second := CutFirst(first.value.1);
      if second.None? then None
      else
        var payload := ReadValue(second.value.1);
        if payload.None? || payload.value.1 != "" then None
        else Some((first.value.0, second.value.0, payload.value.0))
  }

  lemma CutFirstAt(a: string, b: string)
    requires SeparatorFree(a)
    ensures CutFirst(a + "|" + b) == Some((a, b))
  {
    FirstIndex(a, '|', b);
    var s := a + "|" + b;
    assert s[..|a|] == a && s[|a| + 1..] == b;
  }

  /** The documented formula, read from the front: the previous hash, a
      separator, the kind, a separator and JSON text that means the payload. */
  lemma FrameReads(prev: string, kind: string, payload: Json)
    requires SeparatorFree(prev) && SeparatorFree(kind) && WellFormed(payload)
    ensures var r := ReadFrame(Frame(prev, kind, payload));
      r.Some? && r.value.0 == prev && r.value.1 == kind && MeaningOf(r.value.2) == MeaningOf(payload)
  {
    var t := Canonical(Rust, payload);
    Assoc(prev, [SEPARATOR], kind + ([SEPARATOR] + t));
    Assoc(kind, [SEPARATOR], t);
    CutFirstAt(prev, kind + ("|" + t));
    CutFirstAt(kind, t);
    CanonicalReadBack(Rust, payload, "");
    assert t + "" == t;
  }

  /** For any previous hash and kind, by position: nothing else is in the text,
      and what follows the second separator is the payload's canonical text. */
  lemma FrameLayout(prev: string, kind: string, payload: Json)
    ensures var text, k := Frame(prev, kind, payload), |prev| + 1;
      && StartsWith(text, prev) && |text| > k + |kind| && text[|prev|] == '|'
      && StartsWith(text[k..], kind) && text[k + |kind|] == '|'
      && text[k + |kind| + 1..] == Canonical(Rust, payload)
  {
    var t := Canonical(Rust, payload);
    var text := Frame(prev, kind, payload);
    assert text[..|prev|] == prev;
    assert text[|prev| + 1..] == kind + ([SEPARATOR] + t);
    assert text[|prev| + 1..][..|kind|] == kind;
    assert text[|prev| + 1 + |kind|] == text[|prev| + 1..][|kind|];
    assert text[|prev| + 1 + |kind| + 1..] == text[|prev| + 1..][|kind| + 1..] == t;
  }

  /** The first previous hash is 64 zeros: ten times six and four. */
  lemma GenesisLiteral()
    ensures |Genesis()| == 64 && forall i :: 0 <= i < 64 ==> Genesis()[i] == '0'
    ensures var six := "000000";
      Genesis() == six + six + six + six + six + six + six + six + six + six + "0000"
  {
    assert "000000" == Zeros(6) && "0000" == Zeros(4);
  }

  // ---- The chain -----------------------------------------------------------

  datatype AuditEvent = AuditEvent(hash: string, prev: string, kind: string, payload: Json)

  datatype AuditError =
    | ChainBreak(index: nat, expected: string, found: string)
    | HashMismatch(index: nat, stored: string, recomputed: string)

  datatype Verdict = Accepted | Rejected(error: AuditError)

  function FrameOf(e: AuditEvent): string {
    Frame(e.prev, e.kind, e.payload)
  }

  lemma FiveParts(a: string, b: string, c: string, d: string, e: string)
    ensures "" + a + b + c + d + e == a + (b + (c + (d + e)))
  {
    assert "" + a == a;
    Assoc(a + b + c, d, e);
    Assoc(a + b, c, d + e);
    Assoc(a, b, c + (d + e));
  }

  /** `audit_event_hash`: the hasher is fed field by field. */
  method AuditEventHash(hash: string -> string, prev: string, kind: string, payload: Json) returns (r: string)
    ensures r == hash(Frame(prev, kind, payload))
  {
    var hasher := new TextBuffer();
    hasher.Extend(prev);
    hasher.Push(SEPARATOR);
    hasher.Extend(kind);
    hasher.Push(SEPARATOR);
    var text := AuditCanonicalJson(payload);
    hasher.Extend(text);
    assert hasher.text == "" + prev + [SEPARATOR] + kind + [SEPARATOR] + text;
    FiveParts(prev, [SEPARATOR], kind, [SEPARATOR], text);
    r := hash(hasher.text);
  }

  /** The first event of a slice is trusted to name its predecessor. */
  ghost predicate LinkedAt(es: seq<AuditEvent>, i: nat)
    requires i < |es|
  {
    i == 0 || es[i].prev == es[i - 1].hash
  }

  ghost predicate HashedAt(hash: string -> string, es: seq<AuditEvent>, i: nat)
    requires i < |es|
  {
    es[i].hash == hash(FrameOf(es[i]))
  }

  ghost predicate ValidChain(hash: string -> string, es: seq<AuditEvent>) {
    forall i :: 0 <= i < |es| ==> LinkedAt(es, i) && HashedAt(hash, es, i)
  }

  lemma PrefixValid(hash: string -> string, es: seq<AuditEvent>, i: nat)
    requires i <= |es| && forall j :: 0 <= j < i ==> LinkedAt(es, j) && HashedAt(hash, es, j)
    ensures ValidChain(hash, es[..i])
  {
    forall j | 0 <= j < i
      ensures LinkedAt(es[..i], j) && HashedAt(hash, es[..i], j)
    {
      assert LinkedAt(es, j) && HashedAt(hash, es, j);
    }
  }

  /** Accepts exactly the linked and correctly hashed sequences; otherwise names
      the least failing index, a link break ahead of a hash mismatch. */
  method VerifyChain(hash: string -> string, events: seq<AuditEvent>) returns (v: Verdict)
    ensures v.Accepted? <==> ValidChain(hash, events)
    ensures v.Rejected? ==> v.error.index < |events| && ValidChain(hash, events[..v.error.index])
    ensures v.Rejected? && v.error.ChainBreak? ==>
      var i := v.error.index;
      !LinkedAt(events, i) && v.error.expected == events[i - 1].hash && v.error.found == events[i].prev
    ensures v.Rejected? && v.error.HashMismatch? ==>
      var i := v.error.index;
      && LinkedAt(events, i) && !HashedAt(hash, events, i)
      && v.error.stored == events[i].hash && v.error.recomputed == hash(FrameOf(events[i]))
  {
    var prev: seq<string> := [];
    for i := 0 to |events|
      invariant prev == if i == 0 then [] else [events[i - 1].hash]
      invariant forall j :: 0 <= j < i ==> LinkedAt(events, j) && HashedAt(hash, events, j)
    {
      PrefixValid(hash, events, i);
      var event := events[i];
      if prev != [] && event.prev != prev[0] {
        assert !LinkedAt(events, i);
        return Rejected(ChainBreak(i, prev[0], event.prev));
      }
      var recomputed := AuditEventHash(hash, event.prev, event.kind, event.payload);
      if recomputed != event.hash {
        assert !HashedAt(hash, events, i);
        return Rejected(HashMismatch(i, event.hash, recomputed));
      }
      prev := [event.hash];
    }
    v := Accepted;
  }

  /** A sequence is valid exactly when both halves are and they join. */
  lemma ValidConcat(hash: string -> string, a: seq<AuditEvent>, b: seq<AuditEvent>)
    ensures ValidChain(hash, a + b) <==>
      && ValidChain(hash, a) && ValidChain(hash, b)
      && (a != [] && b != [] ==> b[0].prev == a[|a| - 1].hash)
  {
    var c := a + b;
    if ValidChain(hash, c) {
      forall i | 0 <= i < |a|
        ensures LinkedAt(a, i) && HashedAt(hash, a, i)
      {
        assert LinkedAt(c, i) && HashedAt(hash, c, i);
      }
      forall i | 0 <= i < |b|
        ensures LinkedAt(b, i) && HashedAt(hash, b, i)
      {
        assert LinkedAt(c, |a| + i) && HashedAt(hash, c, |a| + i);
      }
      if a != [] && b != [] {
        assert LinkedAt(c, |a|);
      }
    }
    if ValidChain(hash, a) && ValidChain(hash, b) && (a != [] && b != [] ==> b[0].prev == a[|a| - 1].hash) {
      forall i | 0 <= i < |c|
        ensures LinkedAt(c, i) && HashedAt(hash, c, i)
      {
        if i < |a| {
          assert LinkedAt(a, i) && HashedAt(hash, a, i);
        } else {
          assert LinkedAt(b, i - |a|) && HashedAt(hash, b, i - |a|);
        }
      }
    }
  }

  // ---- Logs that grow from genesis -----------------------------------------

  datatype Record = Record(kind: string, payload: Json)

  function Head(es: seq<AuditEvent>): string {
    if es == [] then Genesis() else es[|es| - 1].hash
  }

  /** The log that results from appending the records one after the other. */
  function Grow(hash: string -> string, records: seq<Record>): (es: seq<AuditEvent>)
    ensures |es| == |records|
  {
    if records == [] then []
    else
      var n := |records| - 1;
      var log := Grow(hash, records[..n]);
      log + [AuditEvent(hash(Frame(Head(log), records[n].kind, records[n].payload)),
                        Head(log), records[n].kind, records[n].payload)]
  }

  function RecordsOf(es: seq<AuditEvent>): (r: seq<Record>)
    ensures |r| == |es|
  {
    seq(|es|, i requires 0 <= i < |es| => Record(es[i].kind, es[i].payload))
  }

  ghost predicate FromGenesis(es: seq<AuditEvent>) {
    es != [] ==> es[0].prev == Genesis()
  }

  /** The logs `verify_chain` accepts from genesis are exactly the grown ones. */
  lemma {:induction false} ValidMeansGrown(hash: string -> string, es: seq<AuditEvent>)
    ensures ValidChain(hash, es) && FromGenesis(es) <==> es == Grow(hash, RecordsOf(es))
    decreases |es|
  {
    if es != [] {
      var n := |es| - 1;
      var front, last := es[..n], es[n];
      ValidMeansGrown(hash, front);
      assert RecordsOf(es)[..n] == RecordsOf(front);
      var log := Grow(hash, RecordsOf(front));
      ValidConcat(hash, front, [last]);
      assert es == front + [last];
      assert Grow(hash, RecordsOf(es))[..n] == log;
      assert ValidChain(hash, [last]) <==> last.hash == hash(FrameOf(last)) by {
        assert LinkedAt([last], 0);
        assert HashedAt(hash, [last], 0) <==> last.hash == hash(FrameOf(last));
      }
    }
  }

  /** Any slice of a grown log is accepted on its own. */
  lemma SliceAccepted(hash: string -> string, records: seq<Record>, lo: nat, hi: nat)
    requires lo <= hi <= |records|
    ensures ValidChain(hash, Grow(hash, records)[lo..hi])
  {
    var es := Grow(hash, records);
    GrowRecords(hash, records);
    ValidMeansGrown(hash, es);
    ValidHalves(hash, es, hi);
    ValidHalves(hash, es[..hi], lo);
    assert es[lo..hi] == es[..hi][lo..];
  }

  lemma ValidHalves(hash: string -> string, es: seq<AuditEvent>, k: nat)
    requires k <= |es| && ValidChain(hash, es)
    ensures ValidChain(hash, es[..k]) && ValidChain(hash, es[k..])
  {
    ValidConcat(hash, es[..k], es[k..]);
    assert es == es[..k] + es[k..];
  }

  lemma {:induction false} GrowRecords(hash: string -> string, records: seq<Record>)
    ensures RecordsOf(Grow(hash, records)) == records
  {
    if records != [] {
      var n := |records| - 1;
      GrowRecords(hash, records[..n]);
      var es, log := Grow(hash, records), Grow(hash, records[..n]);
      assert es[..n] == log;
      forall i | 0 <= i <= n
        ensures RecordsOf(es)[i] == records[i]
      {
        if i < n {
          assert RecordsOf(log)[i] == Record(es[i].kind, es[i].payload);
          assert RecordsOf(log)[i] == records[..n][i];
        }
      }
    }
  }

  // ---- Tamper evidence -----------------------------------------------------

  /** Two events say the same. */
  ghost predicate Agree(e: AuditEvent, f: AuditEvent) {
    && e.hash == f.hash && e.prev == f.prev && e.kind == f.kind
    && MeaningOf(e.payload) == MeaningOf(f.payload)
  }

  /** Two different framed texts with one hash. */
  ghost predicate Collide(hash: string -> string, e: AuditEvent, f: AuditEvent) {
    FrameOf(e) != FrameOf(f) && hash(FrameOf(e)) == hash(FrameOf(f))
  }

  ghost predicate Collision(hash: string -> string, a: seq<AuditEvent>, b: seq<AuditEvent>) {
    exists e, f :: e in a && f in b && Collide(hash, e, f)
  }

  /** What the log keeps of an event: hex hashes are separator-free. */
  ghost predicate WellFormedLog(es: seq<AuditEvent>) {
    forall e :: e in es ==> SeparatorFree(e.prev) && WellFormed(e.payload)
  }

  lemma EqualHashes(hash: string -> string, e: AuditEvent, f: AuditEvent)
    requires e.hash == hash(FrameOf(e)) && f.hash == hash(FrameOf(f)) && e.hash == f.hash
    requires SeparatorFree(e.prev) && SeparatorFree(f.prev) && WellFormed(e.payload) && WellFormed(f.payload)
    ensures Agree(e, f) || Collide(hash, e, f)
  {
    FrameUnique(e.prev, e.kind, e.payload, f.prev, f.kind, f.payload);
  }

  ghost predicate SameLog(a: seq<AuditEvent>, b: seq<AuditEvent>) {
    |a| == |b| && forall i :: 0 <= i < |a| ==> Agree(a[i], b[i])
  }

  lemma DropLast(hash: string -> string, es: seq<AuditEvent>)
    requires ValidChain(hash, es) && es != []
    ensures ValidChain(hash, es[..|es| - 1])
    ensures es[|es| - 1].hash == hash(FrameOf(es[|es| - 1]))
    ensures |es| > 1 ==> es[|es| - 1].prev == es[|es| - 2].hash
  {
    var n := |es| - 1;
    assert LinkedAt(es, n) && HashedAt(hash, es, n);
    assert es == es[..n] + es[n..];
    ValidConcat(hash, es[..n], es[n..]);
  }

  lemma DropLastWellFormed(es: seq<AuditEvent>)
    requires WellFormedLog(es) && es != []
    ensures WellFormedLog(es[..|es| - 1])
    ensures SeparatorFree(es[|es| - 1].prev) && WellFormed(es[|es| - 1].payload)
  {
  }

  /** What holds of the logs without their last events holds of the logs. */
  lemma Extend(hash: string -> string, a: seq<AuditEvent>, b: seq<AuditEvent>)
    requires a != [] && b != [] && Agree(a[|a| - 1], b[|b| - 1])
    ensures SameLog(a[..|a| - 1], b[..|b| - 1]) ==> SameLog(a, b)
    ensures Collision(hash, a[..|a| - 1], b[..|b| - 1]) ==> Collision(hash, a, b)
  {
    var n, m := |a| - 1, |b| - 1;
    if SameLog(a[..n], b[..m]) {
      forall i | 0 <= i < |a|
        ensures Agree(a[i], b[i])
      {
        assert i < n ==> Agree(a[..n][i], b[..m][i]);
      }
    }
  }

  lemma {:induction false} SameEndSameLog(hash: string -> string, a: seq<AuditEvent>, b: seq<AuditEvent>)
    requires ValidChain(hash, a) && ValidChain(hash, b) && WellFormedLog(a) && WellFormedLog(b)
    requires |a| == |b| > 0 && a[|a| - 1].hash == b[|b| - 1].hash
    ensures SameLog(a, b) || Collision(hash, a, b)
    decreases |a|
  {
    var n := |a| - 1;
    DropLast(hash, a);
    DropLast(hash, b);
    DropLastWellFormed(a);
    DropLastWellFormed(b);
    EqualHashes(hash, a[n], b[n]);
    if Agree(a[n], b[n]) {
      if n > 0 {
        SameEndSameLog(hash, a[..n], b[..n]);
      }
      Extend(hash, a, b);
    } else {
      assert a[n] in a && b[n] in b;
    }
  }

  /** SHA-256 in hex: 64 digits, lower case. */
  predicate Hex64(s: string) {
    |s| == 64 && forall i :: 0 <= i < |s| ==> '0' <= s[i] <= '9' || 'a' <= s[i] <= 'f'
  }

  ghost predicate HexHash(hash: string -> string) {
    forall text :: Hex64(hash(text))
  }

  ghost predicate PayloadsWellFormed(es: seq<AuditEvent>) {
    forall e :: e in es ==> WellFormed(e.payload)
  }

  /** In an accepted log every previous hash but the first is a stored hash. */
  lemma AcceptedIsWellFormed(hash: string -> string, es: seq<AuditEvent>)
    requires HexHash(hash) && ValidChain(hash, es) && PayloadsWellFormed(es)
    requires es != [] ==> SeparatorFree(es[0].prev)
    ensures WellFormedLog(es)
  {
    forall i | 0 <= i < |es|
      ensures SeparatorFree(es[i].prev)
    {
      assert LinkedAt(es, i);
      if i > 0 {
        assert HashedAt(hash, es, i - 1);
        assert Hex64(hash(FrameOf(es[i - 1])));
      }
    }
  }

  /** Two equally long accepted logs that end in the same hash agree at every
      position, or exhibit a collision. Of the previous hashes only the first,
      which the verifier trusts, has to be separator-free. */
  lemma TamperEvident(hash: string -> string, a: seq<AuditEvent>, b: seq<AuditEvent>)
    requires HexHash(hash) && ValidChain(hash, a) && ValidChain(hash, b)
    requires |a| == |b| > 0 && a[|a| - 1].hash == b[|b| - 1].hash
    requires SeparatorFree(a[0].prev) && SeparatorFree(b[0].prev) && PayloadsWellFormed(a) && PayloadsWellFormed(b)
    ensures SameLog(a, b) || Collision(hash, a, b)
  {
    AcceptedIsWellFormed(hash, a);
    AcceptedIsWellFormed(hash, b);
    SameEndSameLog(hash, a, b);
  }

  /** An event whose hash is the genesis hash. */
  ghost predicate ReachesGenesis(es: seq<AuditEvent>) {
    exists e :: e in es && e.hash == Genesis()
  }

  lemma {:induction false} SameHeadSameLog(hash: string -> string, a: seq<AuditEvent>, b: seq<AuditEvent>)
    requires ValidChain(hash, a) && ValidChain(hash, b) && WellFormedLog(a) && WellFormedLog(b)
    requires FromGenesis(a) && FromGenesis(b) && Head(a) == Head(b)
    ensures SameLog(a, b) || Collision(hash, a, b) || ReachesGenesis(a) || ReachesGenesis(b)
    decreases |a|
  {
    if a != [] && b != [] {
      var n, m := |a| - 1, |b| - 1;
      DropLast(hash, a);
      DropLast(hash, b);
      DropLastWellFormed(a);
      DropLastWellFormed(b);
      EqualHashes(hash, a[n], b[m]);
      if Agree(a[n], b[m]) {
        SameHeadSameLog(hash, a[..n], b[..m]);
        Extend(hash, a, b);
        assert forall e :: e in a[..n] ==> e in a;
        assert forall e :: e in b[..m] ==> e in b;
      } else {
        assert a[n] in a && b[m] in b;
      }
    } else if a != [] {
      assert a[|a| - 1] in a;
    } else if b != [] {
      assert b[|b| - 1] in b;
    }
  }

  lemma GenesisSeparatorFree()
    ensures SeparatorFree(Genesis())
  {
  }

  /** The newest hash determines a whole log grown from genesis, its length
      included, unless a collision or an event hashing to genesis is shown. */
  lemma HeadDeterminesLog(hash: string -> string, a: seq<AuditEvent>, b: seq<AuditEvent>)
    requires HexHash(hash) && ValidChain(hash, a) && ValidChain(hash, b)
    requires PayloadsWellFormed(a) && PayloadsWellFormed(b)
    requires FromGenesis(a) && FromGenesis(b) && Head(a) == Head(b)
    ensures SameLog(a, b) || Collision(hash, a, b) || ReachesGenesis(a) || ReachesGenesis(b)
  {
    GenesisSeparatorFree();
    AcceptedIsWellFormed(hash, a);
    AcceptedIsWellFormed(hash, b);
    SameHeadSameLog(hash, a, b);
  }

  // ---- Why the hypotheses are there ----------------------------------------

  /** A frame names its event among all events, whatever their previous hashes
      and kinds. */
  ghost predicate Names(p: string, k: string, v: Json) {
    forall q, l, w :: WellFormed(w) && Frame(p, k, v) == Frame(q, l, w) ==>
      q == p && l == k && MeaningOf(w) == MeaningOf(v)
  }

  lemma CutAtSeparator(s: string) returns (a: string, b: string)
    requires !SeparatorFree(s)
    ensures s == a + ([SEPARATOR] + b) && SeparatorFree(a)
  {
    var i := IndexOf(s, SEPARATOR);
    IndexFound(s, SEPARATOR);
    FirstCut(s, SEPARATOR);
    a, b := s[..i], s[i + 1..];
    Assoc(a, [SEPARATOR], b);
  }

  lemma Shift(a: string, b: string, c: string)
    ensures (a + ([SEPARATOR] + b)) + ([SEPARATOR] + c) == a + ([SEPARATOR] + (b + ([SEPARATOR] + c)))
  {
    Assoc(a, [SEPARATOR] + b, [SEPARATOR] + c);
    Assoc([SEPARATOR], b, [SEPARATOR] + c);
  }

  /** Behind a separator-free kind and its separator there is no other way to
      find a kind, or a previous hash and a kind, before the payload. */
  lemma NoOtherKind(k: string, x: string, v: Json, l: string, w: Json)
    requires SeparatorFree(k)
    ensures k + ([SEPARATOR] + Write(Rust, v)) != x + ([SEPARATOR] + (l + ([SEPARATOR] + Write(Rust, w))))
  {
    var t, u := Write(Rust, v), Write(Rust, w);
    if k + ([SEPARATOR] + t) == x + ([SEPARATOR] + (l + ([SEPARATOR] + u))) {
      var a, rest := x, l;
      if !SeparatorFree(x) {
        var b;
        a, b := CutAtSeparator(x);
        Shift(a, b, l + ([SEPARATOR] + u));
        Shift(b, l, u);
        rest := b + ([SEPARATOR] + l);
      }
      FirstSeparator(k, a, t, rest + ([SEPARATOR] + u));
      NoInnerPayload(v, w, rest);
    }
  }

  /** The exact condition: neither the previous hash nor the kind holds a
      separator. */
  lemma FrameNamesExactly(p: string, k: string, v: Json)
    requires WellFormed(v)
    ensures Names(p, k, v) <==> SeparatorFree(p) && SeparatorFree(k)
  {
    if !SeparatorFree(p) {
      var a, b := CutAtSeparator(p);
      Shift(a, b, k + ([SEPARATOR] + Canonical(Rust, v)));
      Shift(b, k, Canonical(Rust, v));
      assert Frame(p, k, v) == Frame(a, b + ([SEPARATOR] + k), v);
      assert a != p;
    } else if !SeparatorFree(k) {
      var a, b := CutAtSeparator(k);
      Shift(a, b, Canonical(Rust, v));
      Shift(p, a, b + ([SEPARATOR] + Canonical(Rust, v)));
      assert Frame(p, k, v) == Frame(p + ([SEPARATOR] + a), b, v);
      assert b != k;
    } else {
      forall q, l, w | WellFormed(w) && Frame(p, k, v) == Frame(q, l, w)
        ensures q == p && l == k && MeaningOf(w) == MeaningOf(v)
      {
        if !SeparatorFree(q) {
          OtherHashImpossible(p, k, v, q, l, w);
        }
        FrameUnique(p, k, v, q, l, w);
      }
    }
  }

  lemma OtherHashImpossible(p: string, k: string, v: Json, q: string, l: string, w: Json)
    requires SeparatorFree(p) && SeparatorFree(k) && !SeparatorFree(q)
    ensures Frame(p, k, v) != Frame(q, l, w)
  {
    if Frame(p, k, v) == Frame(q, l, w) {
      var u := l + ([SEPARATOR] + Canonical(Rust, w));
      var a, x := CutAtSeparator(q);
      Shift(a, x, u);
      FirstSeparator(p, a, k + ([SEPARATOR] + Canonical(Rust, v)), x + ([SEPARATOR] + u));
      NoOtherKind(k, x, SortDeep(Rust, v), l, SortDeep(Rust, w));
    }
  }

  /** A separator in a previous hash does make two frames coincide. */
  lemma SeparatorInHashAmbiguous()
    ensures Frame("a|b", "c", Null) == Frame("a", "b|c", Null)
  {
    var t := Canonical(Rust, Null);
    assert Frame("a|b", "c", Null) == "a|b|c|" + t;
    assert Frame("a", "b|c", Null) == "a|b|c|" + t;
  }
}
