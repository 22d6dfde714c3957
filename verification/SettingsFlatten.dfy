/** The settings view shows a tree of settings as rows of dotted paths. The
    rows determine the tree exactly when no key holds a dot, no nested object
    is empty, and no object hangs under the empty key at the root. */
module SettingsFlatten {
  import opened Prelude
  import opened Json
  import opened JsonCanonical
  import opened JsonWriters

  datatype Row = Row(key: string, value: Json)

  /** `prefix ? prefix.key : key`. */
  function Dotted(prefix: string, key: string): string {
    if prefix == "" then key else prefix + "." + key
  }

  // ---- The flattener -------------------------------------------------------

  function Flatten(v: Json, prefix: string): seq<Row>
    requires v.Obj?
    decreases v, 1, 0
  {
    SortedInside(JavaScript, v);
    FlattenEntries(v, SortEntries(JavaScript, v.entries), prefix)
  }

  function FlattenEntry(v: Json, e: Entry, prefix: string): seq<Row>
    requires e.value < v
    decreases v, 0, 0
  {
    var path := Dotted(prefix, e.key);
    if e.value.Obj? then Flatten(e.value, path) else [Row(path, e.value)]
  }

  function FlattenEntries(v: Json, rest: seq<Entry>, prefix: string): seq<Row>
    requires forall e :: e in rest ==> e.value < v
    decreases v, 0, |rest|
  {
    if rest == [] then [] else FlattenEntry(v, rest[0], prefix) + FlattenEntries(v, rest[1..], prefix)
  }

  lemma EntryDone(v: Json, sorted: seq<Entry>, prefix: string, i: nat, done: seq<Row>)
    requires i < |sorted| && forall e :: e in sorted ==> e.value < v
    ensures done + FlattenEntries(v, sorted[i..], prefix)
         == done + FlattenEntry(v, sorted[i], prefix) + FlattenEntries(v, sorted[i + 1..], prefix)
  {
    assert sorted[i..][1..] == sorted[i + 1..];
  }

  /** The source's loop: push a leaf's row, spread an object's rows. */
  method FlattenHubSettings(v: Json, prefix: string) returns (result: seq<Row>)
    requires v.Obj?
    ensures result == Flatten(v, prefix)
    decreases v, 0
  {
    result := [];
    var sorted := SortEntries(JavaScript, v.entries);
    SortedInside(JavaScript, v);
    for i := 0 to |sorted|
      invariant result + FlattenEntries(v, sorted[i..], prefix) == Flatten(v, prefix)
    {
      EntryDone(v, sorted, prefix, i, result);
      var rows := EntryRows(v, sorted[i], prefix);
      result := result + rows;
    }
  }

  /** The two branches of the loop body. */
  method EntryRows(v: Json, e: Entry, prefix: string) returns (rows: seq<Row>)
    requires e.value < v
    ensures rows == FlattenEntry(v, e, prefix)
    decreases e.value, 1
  {
    var path := Dotted(prefix, e.key);
    if e.value.Obj? {
      rows := FlattenHubSettings(e.value, path);
    } else {
      rows := [Row(path, e.value)];
    }
  }

  // ---- Trees and paths -----------------------------------------------------

  /** A tree of settings, whatever order its keys were given in. */
  datatype Tree = Leaf(value: Json) | Node(fields: map<string, Tree>)

  ghost function TreeOf(v: Json): Tree
    decreases v, 1
  {
    if v.Obj? then Node(FieldsOf(v.entries)) else Leaf(v)
  }

  ghost function FieldsOf(es: seq<Entry>): map<string, Tree>
    decreases es, 0
  {
    if es == [] then map[] else FieldsOf(es[1..])[es[0].key := TreeOf(es[0].value)]
  }

  /** A leaf with the keys that lead to it. */
  datatype Placed = Placed(path: seq<string>, value: Json)

  function Below(k: string, rows: seq<Placed>): (r: seq<Placed>)
    ensures |r| == |rows|
    ensures forall i :: 0 <= i < |r| ==> r[i] == Placed([k] + rows[i].path, rows[i].value)
  {
    if rows == [] then [] else [Placed([k] + rows[0].path, rows[0].value)] + Below(k, rows[1..])
  }

  function Paths(v: Json): (r: seq<Placed>)
    requires v.Obj?
    decreases v, 1, 0
  {
    SortedInside(JavaScript, v);
    PathsOfEntries(v, SortEntries(JavaScript, v.entries))
  }

  function PathsOfEntry(v: Json, e: Entry): (r: seq<Placed>)
    requires e.value < v
    decreases v, 0, 0
  {
    if e.value.Obj? then Below(e.key, Paths(e.value)) else [Placed([e.key], e.value)]
  }

  function PathsOfEntries(v: Json, rest: seq<Entry>): (r: seq<Placed>)
    requires forall e :: e in rest ==> e.value < v
    decreases v, 0, |rest|
  {
    if rest == [] then [] else PathsOfEntry(v, rest[0]) + PathsOfEntries(v, rest[1..])
  }

  /** The dotted text of a path, as the flattener builds it going down. */
  function Render(prefix: string, path: seq<string>): string
    decreases |path|
  {
    if path == [] then prefix else Render(Dotted(prefix, path[0]), path[1..])
  }

  function RenderAll(prefix: string, rows: seq<Placed>): (r: seq<Row>)
    ensures |r| == |rows|
    ensures forall i :: 0 <= i < |r| ==> r[i] == Row(Render(prefix, rows[i].path), rows[i].value)
  {
    if rows == [] then [] else [Row(Render(prefix, rows[0].path), rows[0].value)] + RenderAll(prefix, rows[1..])
  }

  lemma RenderAllConcat(prefix: string, a: seq<Placed>, b: seq<Placed>)
    ensures RenderAll(prefix, a + b) == RenderAll(prefix, a) + RenderAll(prefix, b)
  {
  }

  lemma RenderBelow(prefix: string, k: string, rows: seq<Placed>)
    ensures RenderAll(prefix, Below(k, rows)) == RenderAll(Dotted(prefix, k), rows)
  {
    forall i | 0 <= i < |rows|
      ensures Render(prefix, [k] + rows[i].path) == Render(Dotted(prefix, k), rows[i].path)
    {
      assert ([k] + rows[i].path)[1..] == rows[i].path;
    }
  }

  /** The rows are the paths, rendered. */
  lemma {:induction false} FlattenIsRendering(v: Json, prefix: string)
    requires v.Obj?
    ensures Flatten(v, prefix) == RenderAll(prefix, Paths(v))
    decreases v, 1, 0
  {
    SortedInside(JavaScript, v);
    FlattenEntriesIsRendering(v, SortEntries(JavaScript, v.entries), prefix);
  }

  lemma {:induction false} FlattenEntriesIsRendering(v: Json, rest: seq<Entry>, prefix: string)
    requires forall e :: e in rest ==> e.value < v
    ensures FlattenEntries(v, rest, prefix) == RenderAll(prefix, PathsOfEntries(v, rest))
    decreases v, 0, |rest|
  {
    if rest != [] {
      FlattenEntryIsRendering(v, rest[0], prefix);
      FlattenEntriesIsRendering(v, rest[1..], prefix);
      RenderAllConcat(prefix, PathsOfEntry(v, rest[0]), PathsOfEntries(v, rest[1..]));
    }
  }

  lemma {:induction false} FlattenEntryIsRendering(v: Json, e: Entry, prefix: string)
    requires e.value < v
    ensures FlattenEntry(v, e, prefix) == RenderAll(prefix, PathsOfEntry(v, e))
    decreases v, 0, 0
  {
    if e.value.Obj? {
      FlattenIsRendering(e.value, Dotted(prefix, e.key));
      RenderBelow(prefix, e.key, Paths(e.value));
    } else {
      assert [e.key][1..] == [];
      assert Render(prefix, [e.key]) == Dotted(prefix, e.key);
      assert RenderAll(prefix, [Placed([e.key], e.value)])[0] == Row(Dotted(prefix, e.key), e.value);
    }
  }

  // ---- Rebuilding ----------------------------------------------------------

  function FieldsIn(t: Tree): map<string, Tree> {
    if t.Node? then t.fields else map[]
  }

  function Child(t: Tree, k: string): Tree {
    if k in FieldsIn(t) then FieldsIn(t)[k] else Node(map[])
  }

  function Plant(t: Tree, path: seq<string>, value: Json): Tree
    decreases |path|
  {
    if path == [] then Leaf(value)
    else Node(FieldsIn(t)[path[0] := Plant(Child(t, path[0]), path[1..], value)])
  }

  function PlantAll(t: Tree, rows: seq<Placed>): Tree
    decreases |rows|
  {
    if rows == [] then t else PlantAll(Plant(t, rows[0].path, rows[0].value), rows[1..])
  }

  function SplitDots(s: string): (r: seq<string>)
    ensures r != []
  {
    Split(s, '.')
  }

  function Place(rows: seq<Row>): (r: seq<Placed>)
    ensures |r| == |rows|
    ensures forall i :: 0 <= i < |r| ==> r[i] == Placed(SplitDots(rows[i].key), rows[i].value)
  {
    if rows == [] then [] else [Placed(SplitDots(rows[0].key), rows[0].value)] + Place(rows[1..])
  }

  /** The tree that dotted rows describe. */
  function Rebuild(rows: seq<Row>): Tree {
    PlantAll(Node(map[]), Place(rows))
  }

  // ---- Splitting undoes rendering ------------------------------------------

  lemma Regroup(h: string, t: string, b: string)
    ensures h + "." + t + "." + b == h + "." + (t + "." + b)
  {
  }

  lemma {:induction false} SplitJoined(a: string, b: string)
    requires '.' !in b
    ensures SplitDots(a + "." + b) == SplitDots(a) + [b]
    decreases |a|
  {
    var i := IndexOf(a, '.');
    NoIndex(b, '.');
    if i == |a| {
      BeforeIndex(a, '.');
      assert a[..i] == a;
      SplitAtFirst(a, '.', b);
      NoIndex(a, '.');
    } else {
      FirstCut(a, '.');
      SplitJoined(a[i + 1..], b);
      SplitBehind(a[..i], a[i + 1..], b);
    }
  }

  lemma SplitBehind(h: string, t: string, b: string)
    requires '.' !in h && SplitDots(t + "." + b) == SplitDots(t) + [b]
    ensures SplitDots(h + "." + t + "." + b) == SplitDots(h + "." + t) + [b]
  {
    SplitAtFirst(h, '.', t);
    SplitAtFirst(h, '.', t + "." + b);
    Regroup(h, t, b);
    assert [h] + (SplitDots(t) + [b]) == [h] + SplitDots(t) + [b];
  }

  ghost predicate DotFree(path: seq<string>) {
    forall k :: k in path ==> '.' !in k
  }

  lemma SplitDotFree(s: string)
    ensures DotFree(SplitDots(s))
  {
    SplitPieces(s, '.');
  }

  lemma DotFreeParts(path: seq<string>)
    requires DotFree(path) && path != []
    ensures '.' !in path[0] && DotFree(path[1..])
  {
    assert path[0] in path;
  }

  lemma {:induction false} SplitRender(prefix: string, path: seq<string>)
    requires prefix != "" && DotFree(path)
    ensures SplitDots(Render(prefix, path)) == SplitDots(prefix) + path
    decreases |path|
  {
    if path != [] {
      var k, rest := path[0], path[1..];
      DotFreeParts(path);
      calc {
        SplitDots(Render(prefix, path));
        SplitDots(Render(prefix + "." + k, rest));
        { SplitRender(prefix + "." + k, rest); }
        SplitDots(prefix + "." + k) + rest;
        { SplitJoined(prefix, k); }
        SplitDots(prefix) + [k] + rest;
        { assert path == [k] + rest; }
        SplitDots(prefix) + path;
      }
    }
  }

  /** From the root: only a longer path under the empty key is misread. */
  lemma SplitRenderRoot(path: seq<string>)
    requires path != [] && DotFree(path) && (path[0] == "" ==> |path| == 1)
    ensures SplitDots(Render("", path)) == path
  {
    var k := path[0];
    assert k in path && forall l :: l in path[1..] ==> l in path;
    NoIndex(k, '.');
    assert path == [k] + path[1..];
    if k != "" {
      SplitRender(k, path[1..]);
    }
  }

  // ---- Inserting the paths of a tree ---------------------------------------

  lemma {:induction false} PlantAllConcat(t: Tree, a: seq<Placed>, b: seq<Placed>)
    ensures PlantAll(t, a + b) == PlantAll(PlantAll(t, a), b)
    decreases |a|
  {
    if a == [] {
      assert a + b == b;
    } else {
      assert (a + b)[0] == a[0] && (a + b)[1..] == a[1..] + b;
      PlantAllConcat(Plant(t, a[0].path, a[0].value), a[1..], b);
    }
  }

  /** Rows below one key change that key only. */
  lemma {:induction false} PlantAllBelow(t: Tree, k: string, rows: seq<Placed>)
    requires t.Node? && rows != []
    ensures PlantAll(t, Below(k, rows)) == Node(t.fields[k := PlantAll(Child(t, k), rows)])
    decreases |rows|
  {
    var first := Plant(t, [k] + rows[0].path, rows[0].value);
    assert ([k] + rows[0].path)[1..] == rows[0].path;
    var child := Plant(Child(t, k), rows[0].path, rows[0].value);
    assert first == Node(t.fields[k := child]);
    assert Below(k, rows)[1..] == Below(k, rows[1..]);
    if |rows| > 1 {
      PlantAllBelow(first, k, rows[1..]);
      assert t.fields[k := child][k := PlantAll(child, rows[1..])] == t.fields[k := PlantAll(child, rows[1..])];
    } else {
      assert rows[1..] == [] && Below(k, []) == [];
    }
  }

  /** No object below this one is empty. */
  ghost predicate NoEmptyBelow(v: Json) {
    v.Obj? ==> forall e :: e in v.entries ==> NoEmptyBelow(e.value) && (e.value.Obj? ==> e.value.entries != [])
  }

  /** Object keys are distinct down to the leaves; leaves are opaque. */
  ghost predicate DistinctTree(v: Json) {
    v.Obj? ==> DistinctKeys(v.entries) && forall e :: e in v.entries ==> DistinctTree(e.value)
  }

  lemma {:induction false} FieldsInserted(e: Entry, es: seq<Entry>)
    requires !HasKey(es, e.key)
    ensures FieldsOf(Insert(JavaScript, e, es)) == FieldsOf(es)[e.key := TreeOf(e.value)]
  {
    if es == [] || KeyLess(JavaScript, e.key, es[0].key) {
      assert ([e] + es)[1..] == es;
    } else {
      assert es[0] in es && forall x :: x in es[1..] ==> x in es;
      FieldsInserted(e, es[1..]);
      var tail := Insert(JavaScript, e, es[1..]);
      assert ([es[0]] + tail)[1..] == tail;
      UpdatesCommute(FieldsOf(es[1..]), e.key, TreeOf(e.value), es[0].key, TreeOf(es[0].value));
    }
  }

  lemma {:induction false} FieldsSorted(es: seq<Entry>)
    requires DistinctKeys(es)
    ensures FieldsOf(SortEntries(JavaScript, es)) == FieldsOf(es)
  {
    if es != [] {
      FieldsSorted(es[1..]);
      SameElements(JavaScript, es[1..]);
      FieldsInserted(es[0], SortEntries(JavaScript, es[1..]));
    }
  }

  lemma {:induction false} SortedDistinct(es: seq<Entry>)
    requires DistinctKeys(es)
    ensures DistinctKeys(SortEntries(JavaScript, es))
  {
    SortAscending(JavaScript, es);
    AscendingDistinct(SortEntries(JavaScript, es));
  }

  lemma {:induction false} AscendingDistinct(es: seq<Entry>)
    requires Ascending(JavaScript, es)
    ensures DistinctKeys(es)
  {
    if es != [] {
      KeyTrichotomy(JavaScript, es[0].key, es[0].key);
      AscendingDistinct(es[1..]);
    }
  }

  lemma {:induction false} FieldsKeys(es: seq<Entry>, k: string)
    ensures k in FieldsOf(es) <==> HasKey(es, k)
  {
    if es != [] {
      FieldsKeys(es[1..], k);
      assert HasKey(es, k) <==> es[0].key == k || HasKey(es[1..], k) by {
        assert es[0] in es && forall e :: e in es <==> e == es[0] || e in es[1..];
      }
    }
  }

  lemma {:induction false} FieldsAt(es: seq<Entry>, e: Entry)
    requires DistinctKeys(es) && e in es
    ensures e.key in FieldsOf(es) && FieldsOf(es)[e.key] == TreeOf(e.value)
  {
    if e != es[0] {
      FieldsAt(es[1..], e);
      assert HasKey(es[1..], e.key);
    }
  }

  /** What is asked of an entry for its paths to carry its subtree. */
  ghost predicate Carries(e: Entry) {
    DistinctTree(e.value) && NoEmptyBelow(e.value) && (e.value.Obj? ==> e.value.entries != [])
  }

  lemma {:induction false} PathsNonEmpty(v: Json)
    requires v.Obj? && NoEmptyBelow(v) && v.entries != []
    ensures Paths(v) != []
  {
    var sorted := SortEntries(JavaScript, v.entries);
    SortedInside(JavaScript, v);
    SameElements(JavaScript, v.entries);
    assert v.entries[0] in sorted;
    var e := sorted[0];
    assert e in sorted && e in v.entries;
    if e.value.Obj? {
      PathsNonEmpty(e.value);
    }
    assert PathsOfEntry(v, e) != [];
    assert Paths(v) == PathsOfEntry(v, e) + PathsOfEntries(v, sorted[1..]);
  }

  lemma {:induction false} PlantEntries(v: Json, rest: seq<Entry>, m: map<string, Tree>)
    requires forall e :: e in rest ==> e.value < v && Carries(e)
    requires DistinctKeys(rest) && forall k :: k in m ==> !HasKey(rest, k)
    ensures PlantAll(Node(m), PathsOfEntries(v, rest)) == Node(m + FieldsOf(rest))
    decreases v, 0, |rest|
  {
    if rest == [] {
      assert m + map[] == m;
    } else {
      var e, t := rest[0], TreeOf(rest[0].value);
      assert e in rest && forall x :: x in rest[1..] ==> x in rest;
      assert HasKey(rest, e.key);
      PlantAllConcat(Node(m), PathsOfEntry(v, e), PathsOfEntries(v, rest[1..]));
      PlantEntry(v, e, m);
      PlantEntries(v, rest[1..], m[e.key := t]);
      FieldsKeys(rest[1..], e.key);
      AddLater(m, e.key, t, FieldsOf(rest[1..]));
    }
  }

  lemma AddLater(m: map<string, Tree>, k: string, t: Tree, fields: map<string, Tree>)
    requires k !in fields
    ensures m[k := t] + fields == m + fields[k := t]
  {
  }

  lemma {:induction false} PlantEntry(v: Json, e: Entry, m: map<string, Tree>)
    requires e.value < v && Carries(e) && e.key !in m
    ensures PlantAll(Node(m), PathsOfEntry(v, e)) == Node(m[e.key := TreeOf(e.value)])
    decreases v, 0, 0
  {
    if e.value.Obj? {
      PathsNonEmpty(e.value);
      PlantAllBelow(Node(m), e.key, Paths(e.value));
      PlantPaths(e.value);
    } else {
      var row := Placed([e.key], e.value);
      assert [row][1..] == [] && [e.key][1..] == [];
      assert PlantAll(Node(m), [row]) == Plant(Node(m), [e.key], e.value);
      assert Plant(Child(Node(m), e.key), [e.key][1..], e.value) == Leaf(e.value);
    }
  }

  /** Planting the paths of a tree grows the tree. */
  lemma {:induction false} PlantPaths(v: Json)
    requires v.Obj? && DistinctTree(v) && NoEmptyBelow(v)
    ensures PlantAll(Node(map[]), Paths(v)) == TreeOf(v)
    decreases v, 1, 0
  {
    SortedInside(JavaScript, v);
    SameElements(JavaScript, v.entries);
    SortedDistinct(v.entries);
    FieldsSorted(v.entries);
    var sorted := SortEntries(JavaScript, v.entries);
    forall e | e in sorted
      ensures Carries(e)
    {
      assert e in v.entries;
    }
    PlantEntries(v, sorted, map[]);
    AddToEmpty(FieldsOf(sorted));
  }

  lemma AddToEmpty(fields: map<string, Tree>)
    ensures map[] + fields == fields
  {
  }

  // ---- Which trees survive -------------------------------------------------

  ghost predicate KeysDotFree(v: Json) {
    v.Obj? ==> forall e :: e in v.entries ==> '.' !in e.key && KeysDotFree(e.value)
  }

  ghost predicate EmptyKeyIsLeaf(v: Json) {
    v.Obj? ==> forall e :: e in v.entries && e.key == "" ==> !e.value.Obj?
  }

  /** The first key of a path is a key of the tree, a longer path goes into an
      object, and all keys are dot-free when the tree's are. */
  ghost predicate PathFits(v: Json, path: seq<string>) {
    && v.Obj? && path != []
    && (exists e :: e in v.entries && e.key == path[0] && (|path| > 1 ==> e.value.Obj?))
    && (KeysDotFree(v) ==> DotFree(path))
  }

  lemma {:induction false} PathsFit(v: Json)
    requires v.Obj?
    ensures forall r :: r in Paths(v) ==> PathFits(v, r.path)
    decreases v, 1, 0
  {
    SortedInside(JavaScript, v);
    SameElements(JavaScript, v.entries);
    EntriesFit(v, SortEntries(JavaScript, v.entries));
  }

  lemma {:induction false} EntriesFit(v: Json, rest: seq<Entry>)
    requires v.Obj? && forall e :: e in rest ==> e in v.entries && e.value < v
    ensures forall r :: r in PathsOfEntries(v, rest) ==> PathFits(v, r.path)
    decreases v, 0, |rest|
  {
    if rest != [] {
      assert rest[0] in rest && forall x :: x in rest[1..] ==> x in rest;
      EntryFits(v, rest[0]);
      EntriesFit(v, rest[1..]);
    }
  }

  lemma {:induction false} EntryFits(v: Json, e: Entry)
    requires v.Obj? && e in v.entries && e.value < v
    ensures forall r :: r in PathsOfEntry(v, e) ==> PathFits(v, r.path) && r.path[0] == e.key
    decreases v, 0, 0
  {
    if e.value.Obj? {
      var below := Paths(e.value);
      PathsFit(e.value);
      forall i | 0 <= i < |below|
        ensures PathFits(v, [e.key] + below[i].path)
      {
        assert below[i] in below;
        assert PathFits(e.value, below[i].path);
      }
    } else {
      assert PathFits(v, [e.key]);
    }
  }

  lemma PlaceRendered(rows: seq<Placed>)
    requires forall r :: r in rows ==> r.path != [] && DotFree(r.path) && (r.path[0] == "" ==> |r.path| == 1)
    ensures Place(RenderAll("", rows)) == rows
  {
    forall i | 0 <= i < |rows|
      ensures Place(RenderAll("", rows))[i] == rows[i]
    {
      assert rows[i] in rows;
      SplitRenderRoot(rows[i].path);
    }
  }

  /** What `Rebuild` makes: dot-free keys, and no empty node below the root. */
  ghost predicate TreeGood(t: Tree) {
    t.Node? ==> forall k :: k in t.fields ==>
      '.' !in k && TreeGood(t.fields[k]) && (t.fields[k].Node? ==> t.fields[k].fields != map[])
  }

  lemma {:induction false} PlantGood(t: Tree, path: seq<string>, value: Json)
    requires TreeGood(t) && DotFree(path)
    ensures TreeGood(Plant(t, path, value))
    ensures path != [] ==> Plant(t, path, value).Node? && Plant(t, path, value).fields != map[]
    decreases |path|
  {
    if path != [] {
      assert path[0] in path && forall k :: k in path[1..] ==> k in path;
      PlantGood(Child(t, path[0]), path[1..], value);
      var r := Plant(t, path, value);
      assert path[0] in r.fields;
    }
  }

  lemma {:induction false} PlantAllGood(t: Tree, rows: seq<Placed>)
    requires TreeGood(t) && forall r :: r in rows ==> DotFree(r.path)
    ensures TreeGood(PlantAll(t, rows))
    decreases |rows|
  {
    if rows != [] {
      assert rows[0] in rows && forall r :: r in rows[1..] ==> r in rows;
      PlantGood(t, rows[0].path, rows[0].value);
      PlantAllGood(Plant(t, rows[0].path, rows[0].value), rows[1..]);
    }
  }

  lemma {:induction false} GoodTreeShape(v: Json)
    requires DistinctTree(v) && TreeGood(TreeOf(v))
    ensures KeysDotFree(v) && NoEmptyBelow(v)
  {
    if v.Obj? {
      forall e | e in v.entries
        ensures '.' !in e.key && KeysDotFree(e.value) && NoEmptyBelow(e.value)
        ensures e.value.Obj? ==> e.value.entries != []
      {
        FieldsAt(v.entries, e);
        GoodTreeShape(e.value);
      }
    }
  }

  /** Nothing hangs below the empty key at the root. */
  ghost predicate EmptyKeyClosed(t: Tree) {
    t.Node? && ("" in t.fields ==> t.fields[""].Leaf?)
  }

  lemma {:induction false} PlantAllClosed(t: Tree, rows: seq<Placed>)
    requires EmptyKeyClosed(t)
    requires forall r :: r in rows ==> r.path != [] && (r.path[0] == "" ==> |r.path| == 1)
    ensures EmptyKeyClosed(PlantAll(t, rows))
    decreases |rows|
  {
    if rows != [] {
      assert rows[0] in rows && forall r :: r in rows[1..] ==> r in rows;
      var path := rows[0].path;
      assert path[0] == "" ==> path[1..] == [];
      assert Plant(t, path, rows[0].value)
          == Node(t.fields[path[0] := Plant(Child(t, path[0]), path[1..], rows[0].value)]);
      PlantAllClosed(Plant(t, path, rows[0].value), rows[1..]);
    }
  }

  ghost predicate NoLeadingDot(s: string) {
    s != "" ==> s[0] != '.'
  }

  lemma {:induction false} RenderNoLeadingDot(prefix: string, path: seq<string>)
    requires NoLeadingDot(prefix) && DotFree(path)
    ensures NoLeadingDot(Render(prefix, path))
    decreases |path|
  {
    if path != [] {
      var k := path[0];
      assert k in path && forall l :: l in path[1..] ==> l in path;
      assert k != "" ==> k[0] in k;
      RenderNoLeadingDot(Dotted(prefix, k), path[1..]);
    }
  }

  lemma SplitNoLeadingDot(s: string)
    requires NoLeadingDot(s)
    ensures SplitDots(s)[0] == "" ==> |SplitDots(s)| == 1
  {
  }

  // ---- The main result -----------------------------------------------------

  /** The rows of a tree rebuild it exactly when no key holds a dot, no nested
      object is empty, and no object hangs under the empty key at the root. */
  lemma RowsDetermineTree(v: Json)
    requires v.Obj? && DistinctTree(v)
    ensures Rebuild(Flatten(v, "")) == TreeOf(v) <==> KeysDotFree(v) && NoEmptyBelow(v) && EmptyKeyIsLeaf(v)
  {
    FlattenIsRendering(v, "");
    PathsFit(v);
    if KeysDotFree(v) && NoEmptyBelow(v) && EmptyKeyIsLeaf(v) {
      RebuildsBack(v);
    }
    if Rebuild(Flatten(v, "")) == TreeOf(v) {
      RebuiltShape(v);
    }
  }

  lemma FittingRoot(v: Json, path: seq<string>)
    requires PathFits(v, path) && EmptyKeyIsLeaf(v) && DistinctKeys(v.entries)
    ensures path[0] == "" ==> |path| == 1
  {
  }

  lemma RebuildsBack(v: Json)
    requires v.Obj? && DistinctTree(v) && KeysDotFree(v) && NoEmptyBelow(v) && EmptyKeyIsLeaf(v)
    ensures Rebuild(RenderAll("", Paths(v))) == TreeOf(v)
  {
    PathsFit(v);
    forall r | r in Paths(v)
      ensures r.path != [] && DotFree(r.path) && (r.path[0] == "" ==> |r.path| == 1)
    {
      FittingRoot(v, r.path);
    }
    PlaceRendered(Paths(v));
    PlantPaths(v);
  }

  lemma PlacedAreDotFree(rows: seq<Row>)
    ensures forall r :: r in Place(rows) ==> DotFree(r.path)
  {
    forall r | r in Place(rows)
      ensures DotFree(r.path)
    {
      var i :| 0 <= i < |rows| && r == Place(rows)[i];
      SplitDotFree(rows[i].key);
    }
  }

  lemma PlacedAreClosed(rows: seq<Placed>)
    requires forall r :: r in rows ==> DotFree(r.path)
    ensures forall r :: r in Place(RenderAll("", rows)) ==> r.path != [] && (r.path[0] == "" ==> |r.path| == 1)
  {
    var shown := RenderAll("", rows);
    forall i | 0 <= i < |rows|
      ensures var path := Place(shown)[i].path; path != [] && (path[0] == "" ==> |path| == 1)
    {
      assert rows[i] in rows;
      RenderNoLeadingDot("", rows[i].path);
      SplitNoLeadingDot(shown[i].key);
    }
  }

  lemma RebuiltShape(v: Json)
    requires v.Obj? && DistinctTree(v) && Rebuild(RenderAll("", Paths(v))) == TreeOf(v)
    ensures KeysDotFree(v) && NoEmptyBelow(v) && EmptyKeyIsLeaf(v)
  {
    var rows := RenderAll("", Paths(v));
    PlacedAreDotFree(rows);
    PlantAllGood(Node(map[]), Place(rows));
    GoodTreeShape(v);
    PathsFit(v);
    PlacedAreClosed(Paths(v));
    PlantAllClosed(Node(map[]), Place(rows));
    ClosedRoot(v);
  }

  lemma ClosedRoot(v: Json)
    requires v.Obj? && DistinctTree(v) && EmptyKeyClosed(TreeOf(v))
    ensures EmptyKeyIsLeaf(v)
  {
    forall e | e in v.entries && e.key == ""
      ensures !e.value.Obj?
    {
      FieldsAt(v.entries, e);
    }
  }

  // ---- Distinct rows -------------------------------------------------------

  ghost predicate DistinctPaths(rows: seq<Placed>) {
    forall i, j :: 0 <= i < j < |rows| ==> rows[i].path != rows[j].path
  }

  lemma {:induction false} PathsDistinct(v: Json)
    requires v.Obj? && DistinctTree(v)
    ensures DistinctPaths(Paths(v))
    decreases v, 1, 0
  {
    SortedInside(JavaScript, v);
    SameElements(JavaScript, v.entries);
    SortedDistinct(v.entries);
    EntriesDistinct(v, SortEntries(JavaScript, v.entries));
  }

  lemma {:induction false} EntriesDistinct(v: Json, rest: seq<Entry>)
    requires v.Obj? && DistinctKeys(rest)
    requires forall e :: e in rest ==> e in v.entries && e.value < v && DistinctTree(e.value)
    ensures DistinctPaths(PathsOfEntries(v, rest))
    ensures forall r :: r in PathsOfEntries(v, rest) ==> r.path != [] && HasKey(rest, r.path[0])
    decreases v, 0, |rest|
  {
    if rest != [] {
      var e := rest[0];
      assert e in rest && forall x :: x in rest[1..] ==> x in rest;
      EntryFits(v, e);
      EntriesDistinct(v, rest[1..]);
      if e.value.Obj? {
        PathsDistinct(e.value);
        BelowDistinct(e.key, Paths(e.value));
      }
      var a, b := PathsOfEntry(v, e), PathsOfEntries(v, rest[1..]);
      forall i, j | 0 <= i < |a| && 0 <= j < |b|
        ensures a[i].path != b[j].path
      {
        assert a[i] in a && b[j] in b;
        assert a[i].path[0] == e.key && HasKey(rest[1..], b[j].path[0]);
      }
    }
  }

  lemma BelowDistinct(k: string, rows: seq<Placed>)
    requires DistinctPaths(rows)
    ensures DistinctPaths(Below(k, rows))
  {
    forall i, j | 0 <= i < j < |rows|
      ensures [k] + rows[i].path != [k] + rows[j].path
    {
      assert ([k] + rows[i].path)[1..] == rows[i].path && ([k] + rows[j].path)[1..] == rows[j].path;
    }
  }

  /** No two rows show the same dotted path. */
  lemma RowsDistinct(v: Json)
    requires v.Obj? && DistinctTree(v) && KeysDotFree(v) && EmptyKeyIsLeaf(v)
    ensures var rows := Flatten(v, "");
      forall i, j :: 0 <= i < j < |rows| ==> rows[i].key != rows[j].key
  {
    FlattenIsRendering(v, "");
    PathsFit(v);
    PathsDistinct(v);
    var paths := Paths(v);
    forall i | 0 <= i < |paths|
      ensures SplitDots(Flatten(v, "")[i].key) == paths[i].path
    {
      assert paths[i] in paths;
      FittingRoot(v, paths[i].path);
      SplitRenderRoot(paths[i].path);
    }
  }

  lemma FlattenLeaf(v: Json, e: Entry)
    requires v == Obj([e]) && !e.value.Obj?
    ensures Flatten(v, "") == [Row(e.key, e.value)]
  {
    SortOne(e);
    SortedInside(JavaScript, v);
    assert [e][1..] == [];
    assert FlattenEntries(v, [], "") == [];
    assert FlattenEntry(v, e, "") == [Row(e.key, e.value)];
    assert FlattenEntries(v, [e], "") == [Row(e.key, e.value)];
  }

  lemma SortOne(e: Entry)
    ensures SortEntries(JavaScript, [e]) == [e]
  {
    assert [e][1..] == [];
    assert SortEntries(JavaScript, []) == [];
  }

  lemma SortEmptyKeyFirst(e: Entry, f: Entry)
    requires e.key == "" && f.key != ""
    ensures SortEntries(JavaScript, [e, f]) == [e, f]
  {
    SortOne(f);
    assert [e, f][1..] == [f];
    assert KeyRank(JavaScript, e.key) == [] && KeyRank(JavaScript, f.key) != [];
  }

  /** An object under an empty key at the root can clash with its siblings. */
  lemma EmptyRootKeyClashes(inner: Json, e: Entry, f: Entry)
    requires inner == Obj([Entry("a", Num(1))]) && e == Entry("", inner) && f == Entry("a", Num(2))
    ensures Flatten(Obj([e, f]), "") == [Row("a", Num(1)), Row("a", Num(2))]
  {
    var v := Obj([e, f]);
    SortEmptyKeyFirst(e, f);
    SortedInside(JavaScript, v);
    FlattenLeaf(inner, inner.entries[0]);
    assert [e, f][1..] == [f] && [f][1..] == [];
    assert FlattenEntries(v, [], "") == [];
    assert FlattenEntries(v, [f], "") == [Row("a", Num(2))];
    assert FlattenEntry(v, e, "") == Flatten(inner, "");
  }
}
