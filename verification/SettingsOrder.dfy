/** The order of the rows that the settings view shows. */
module SettingsOrder {
  import opened Prelude
  import opened Json
  import opened JsonCanonical
  import opened JsonWriters
  import opened SettingsFlatten

  /** Where the two paths part, the first has the lesser key. */
  ghost predicate PathBefore(p: seq<string>, q: seq<string>) {
    exists i: nat :: PartAt(p, q, i)
  }

  ghost predicate PartAt(p: seq<string>, q: seq<string>, i: nat) {
    i < |p| && i < |q| && p[..i] == q[..i] && KeyLess(JavaScript, p[i], q[i])
  }

  ghost predicate PathsAscend(rows: seq<Placed>) {
    forall i, j :: 0 <= i < j < |rows| ==> PathBefore(rows[i].path, rows[j].path)
  }

  lemma BeforeBelow(k: string, p: seq<string>, q: seq<string>)
    requires PathBefore(p, q)
    ensures PathBefore([k] + p, [k] + q)
  {
    var i: nat :| PartAt(p, q, i);
    assert ([k] + p)[..i + 1] == [k] + p[..i] && ([k] + q)[..i + 1] == [k] + q[..i];
    assert PartAt([k] + p, [k] + q, i + 1);
  }

  lemma BelowAscends(k: string, rows: seq<Placed>)
    requires PathsAscend(rows)
    ensures PathsAscend(Below(k, rows))
  {
    forall i, j | 0 <= i < j < |rows|
      ensures PathBefore([k] + rows[i].path, [k] + rows[j].path)
    {
      BeforeBelow(k, rows[i].path, rows[j].path);
    }
  }

  /** Every path begins with one of these keys. */
  ghost predicate KeysFrom(rows: seq<Placed>, es: seq<Entry>) {
    forall r :: r in rows ==> r.path != [] && HasKey(es, r.path[0])
  }

  lemma EntryPaths(v: Json, e: Entry)
    requires e.value < v
    ensures forall r :: r in PathsOfEntry(v, e) ==> r.path != [] && r.path[0] == e.key
  {
  }

  lemma {:induction false} EntriesPaths(v: Json, rest: seq<Entry>)
    requires forall e :: e in rest ==> e.value < v
    ensures KeysFrom(PathsOfEntries(v, rest), rest)
    decreases |rest|
  {
    if rest != [] {
      EntryPaths(v, rest[0]);
      EntriesPaths(v, rest[1..]);
    }
  }

  lemma AscendsConcat(a: seq<Placed>, b: seq<Placed>, k: string, rest: seq<Entry>)
    requires PathsAscend(a) && PathsAscend(b) && KeysFrom(b, rest)
    requires forall r :: r in a ==> r.path != [] && r.path[0] == k
    requires forall e :: e in rest ==> KeyLess(JavaScript, k, e.key)
    ensures PathsAscend(a + b)
  {
    var rows := a + b;
    forall i, j | 0 <= i < j < |rows|
      ensures PathBefore(rows[i].path, rows[j].path)
    {
      if i < |a| <= j {
        assert rows[i] in a && rows[j] in b;
        assert PartAt(rows[i].path, rows[j].path, 0);
      }
    }
  }

  /** From row to row the paths ascend, key by key in the order of the keys, with
      every row under its own parent. */
  lemma {:induction false} RowsAscend(v: Json)
    requires v.Obj? && DistinctTree(v)
    ensures PathsAscend(Paths(v))
    decreases v, 1, 0
  {
    SortedInside(JavaScript, v);
    SameElements(JavaScript, v.entries);
    SortAscending(JavaScript, v.entries);
    EntriesAscend(v, SortEntries(JavaScript, v.entries));
  }

  lemma {:induction false} EntriesAscend(v: Json, rest: seq<Entry>)
    requires forall e :: e in rest ==> e.value < v && DistinctTree(e.value)
    requires Ascending(JavaScript, rest)
    ensures PathsAscend(PathsOfEntries(v, rest))
    decreases v, 0, |rest|
  {
    if rest != [] {
      var e, tail := rest[0], rest[1..];
      if e.value.Obj? {
        RowsAscend(e.value);
        BelowAscends(e.key, Paths(e.value));
      }
      EntriesAscend(v, tail);
      EntryPaths(v, e);
      EntriesPaths(v, tail);
      AscendsConcat(PathsOfEntry(v, e), PathsOfEntries(v, tail), e.key, tail);
    }
  }
}
