/** The explorer's text filter: a recursive pruning that keeps a matching node,
    and keeps its whole subtree when nothing below it matches. */
module TreeFilter {
  import opened Prelude
  import opened SseReader

  /** A node with or without a `children` field. */
  datatype Node =
    | Leaf(id: string, title: string)
    | Branch(id: string, title: string, children: seq<Node>)

  function ChildrenOf(n: Node): seq<Node> {
    if n.Branch? then n.children else []
  }

  predicate Contains(s: string, needle: string) {
    exists i :: 0 <= i <= |s| && StartsWith(s[i..], needle)
  }

  /** `filterExplorerNodes`; `lower` is the platform's `toLowerCase`. */
  function FilterExplorerNodes(nodes: seq<Node>, filter: string, lower: string -> string): seq<Node> {
    var needle := lower(Trim(filter));
    if needle == "" then nodes else Prune(nodes, title => Contains(lower(title), needle))
  }

  function Prune(nodes: seq<Node>, hit: string -> bool): (r: seq<Node>)
    ensures |r| <= |nodes|
    decreases nodes, 0
  {
    if nodes == [] then [] else PruneNode(nodes[0], hit) + Prune(nodes[1..], hit)
  }

  /** At most one node; with its pruned children if any are left. */
  function PruneNode(n: Node, hit: string -> bool): (r: seq<Node>)
    ensures |r| <= 1
    ensures r != [] ==> r[0].id == n.id && r[0].title == n.title
    decreases n, 1
  {
    var children := if n.Branch? then Prune(n.children, hit) else [];
    if hit(n.title) || children != [] then
      [if children != [] then n.(children := children) else n]
    else []
  }

  // ---- Idempotence ---------------------------------------------------------

  lemma {:induction false} PruneConcat(a: seq<Node>, b: seq<Node>, hit: string -> bool)
    ensures Prune(a + b, hit) == Prune(a, hit) + Prune(b, hit)
    decreases |a|
  {
    if a == [] {
      assert a + b == b;
    } else {
      assert (a + b)[0] == a[0] && (a + b)[1..] == a[1..] + b;
      PruneConcat(a[1..], b, hit);
    }
  }

  lemma PruneOne(n: Node, hit: string -> bool)
    ensures Prune([n], hit) == PruneNode(n, hit)
  {
    assert [n][1..] == [];
  }

  lemma {:induction false} PruneTwice(nodes: seq<Node>, hit: string -> bool)
    ensures Prune(Prune(nodes, hit), hit) == Prune(nodes, hit)
    decreases nodes, 0
  {
    if nodes != [] {
      PruneNodeTwice(nodes[0], hit);
      PruneTwice(nodes[1..], hit);
      PruneConcat(PruneNode(nodes[0], hit), Prune(nodes[1..], hit), hit);
    }
  }

  lemma {:induction false} PruneNodeTwice(n: Node, hit: string -> bool)
    ensures Prune(PruneNode(n, hit), hit) == PruneNode(n, hit)
    decreases n, 1
  {
    if n.Branch? {
      PruneTwice(n.children, hit);
    }
    if PruneNode(n, hit) != [] {
      PruneOne(PruneNode(n, hit)[0], hit);
    }
  }

  /** Filtering what is filtered changes nothing, for every tree and filter. */
  lemma FilterIdempotent(nodes: seq<Node>, filter: string, lower: string -> string)
    ensures var once := FilterExplorerNodes(nodes, filter, lower);
      FilterExplorerNodes(once, filter, lower) == once
  {
    var needle := lower(Trim(filter));
    if needle != "" {
      PruneTwice(nodes, title => Contains(lower(title), needle));
    }
  }

  // ---- What is kept --------------------------------------------------------

  /** Nodes from a root of the forest downwards. */
  ghost predicate Chain(forest: seq<Node>, path: seq<Node>)
    decreases |path|
  {
    path != [] && path[0] in forest && (|path| > 1 ==> Chain(ChildrenOf(path[0]), path[1..]))
  }

  /** The node or one below it matches. */
  ghost predicate HasHit(n: Node, hit: string -> bool) {
    hit(n.title) || (n.Branch? && exists c :: c in n.children && HasHit(c, hit))
  }

  ghost predicate NoneBelow(n: Node, hit: string -> bool) {
    forall c :: c in ChildrenOf(n) ==> !HasHit(c, hit)
  }

  /** The rule: the node leads to a match, or a matching ancestor has no
      matching descendant. */
  ghost predicate Kept(path: seq<Node>, hit: string -> bool)
    requires path != []
  {
    || HasHit(path[|path| - 1], hit)
    || exists i :: 0 <= i < |path| - 1 && hit(path[i].title) && NoneBelow(path[i], hit)
  }

  ghost predicate SameNodes(a: seq<Node>, b: seq<Node>) {
    |a| == |b| && forall i :: 0 <= i < |a| ==> a[i].id == b[i].id && a[i].title == b[i].title
  }

  lemma {:induction false} PruneElements(nodes: seq<Node>, hit: string -> bool)
    ensures forall m :: m in Prune(nodes, hit) ==> exists n :: n in nodes && m in PruneNode(n, hit)
    ensures forall n, m :: n in nodes && m in PruneNode(n, hit) ==> m in Prune(nodes, hit)
    decreases |nodes|
  {
    if nodes != [] {
      PruneElements(nodes[1..], hit);
      forall m | m in Prune(nodes, hit)
        ensures exists n :: n in nodes && m in PruneNode(n, hit)
      {
        if m in PruneNode(nodes[0], hit) {
          assert nodes[0] in nodes;
        } else {
          var n :| n in nodes[1..] && m in PruneNode(n, hit);
          assert n in nodes;
        }
      }
      assert forall n :: n in nodes <==> n == nodes[0] || n in nodes[1..];
    }
  }

  lemma {:induction false} KeepsHits(n: Node, hit: string -> bool)
    ensures PruneNode(n, hit) != [] <==> HasHit(n, hit)
    ensures n.Branch? ==> (Prune(n.children, hit) == [] <==> NoneBelow(n, hit))
    decreases n, 1
  {
    if n.Branch? {
      KeepsHitsBelow(n.children, hit);
    }
  }

  lemma {:induction false} KeepsHitsBelow(nodes: seq<Node>, hit: string -> bool)
    ensures Prune(nodes, hit) != [] <==> exists c :: c in nodes && HasHit(c, hit)
    decreases nodes, 0
  {
    if nodes != [] {
      KeepsHits(nodes[0], hit);
      KeepsHitsBelow(nodes[1..], hit);
      assert forall c :: c in nodes <==> c == nodes[0] || c in nodes[1..];
    }
  }

  lemma {:induction false} MissesAllTheWay(forest: seq<Node>, path: seq<Node>, i: nat, hit: string -> bool)
    requires Chain(forest, path) && i < |path| && forall c :: c in forest ==> !HasHit(c, hit)
    ensures !HasHit(path[i], hit)
    decreases |path|
  {
    if i > 0 {
      assert !HasHit(path[0], hit);
      MissesAllTheWay(ChildrenOf(path[0]), path[1..], i - 1, hit);
    }
  }

  /** Every node the rule keeps is in the result, under its own ancestors. */
  lemma {:induction false} RuleIsKept(forest: seq<Node>, path: seq<Node>, hit: string -> bool) returns (r: seq<Node>)
    requires Chain(forest, path) && Kept(path, hit)
    ensures Chain(Prune(forest, hit), r) && SameNodes(path, r)
    decreases |path|
  {
    var n := path[0];
    KeepsHits(n, hit);
    PruneElements(forest, hit);
    if |path| == 1 {
      r := [PruneNode(n, hit)[0]];
      assert r[0] in PruneNode(n, hit);
    } else {
      var below := path[1..];
      assert n.Branch?;
      if NoneBelow(n, hit) {
        NothingDeeper(n, path, hit);
        assert PruneNode(n, hit) == [n];
        assert n in PruneNode(n, hit);
        r := path;
      } else {
        KeptBelow(n, path, hit);
        var rest := RuleIsKept(n.children, below, hit);
        var m := PruneNode(n, hit)[0];
        assert m in PruneNode(n, hit);
        r := [m] + rest;
        assert r[1..] == rest;
      }
    }
  }

  /** Below a node without matching descendants only the node's own match counts. */
  lemma NothingDeeper(n: Node, path: seq<Node>, hit: string -> bool)
    requires Chain([n], path) && |path| > 1 && path[0] == n && NoneBelow(n, hit) && Kept(path, hit)
    ensures hit(n.title)
  {
    var below := path[1..];
    forall i | 0 <= i < |below|
      ensures !HasHit(below[i], hit)
    {
      MissesAllTheWay(ChildrenOf(n), below, i, hit);
    }
    assert path[|path| - 1] == below[|below| - 1];
    forall i | 0 < i < |path| - 1
      ensures !hit(path[i].title)
    {
      assert path[i] == below[i - 1];
    }
  }

  lemma KeptBelow(n: Node, path: seq<Node>, hit: string -> bool)
    requires |path| > 1 && path[0] == n && !NoneBelow(n, hit) && Kept(path, hit)
    ensures Kept(path[1..], hit)
  {
    var below := path[1..];
    assert path[|path| - 1] == below[|below| - 1];
    if i :| 0 <= i < |path| - 1 && hit(path[i].title) && NoneBelow(path[i], hit) {
      assert i > 0;
      assert path[i] == below[i - 1];
    }
  }

  /** And nothing else is: every node of the result is one the rule keeps. */
  lemma {:induction false} KeptIsRule(forest: seq<Node>, r: seq<Node>, hit: string -> bool) returns (path: seq<Node>)
    requires Chain(Prune(forest, hit), r)
    ensures Chain(forest, path) && SameNodes(path, r) && Kept(path, hit)
    decreases |r|
  {
    PruneElements(forest, hit);
    var n :| n in forest && r[0] in PruneNode(n, hit);
    KeepsHits(n, hit);
    if |r| == 1 {
      path := [n];
    } else if n.Branch? && Prune(n.children, hit) != [] {
      assert ChildrenOf(r[0]) == Prune(n.children, hit);
      var below := KeptIsRule(n.children, r[1..], hit);
      path := [n] + below;
      assert path[1..] == below && path[|path| - 1] == below[|below| - 1];
      if i :| 0 <= i < |below| - 1 && hit(below[i].title) && NoneBelow(below[i], hit) {
        assert path[i + 1] == below[i];
      }
    } else {
      assert r[0] == n && hit(n.title);
      path := r;
      assert NoneBelow(n, hit);
    }
  }

  /** The result holds exactly the nodes the rule keeps. */
  lemma FilterKeepsExactly(forest: seq<Node>, hit: string -> bool)
    ensures forall path :: Chain(forest, path) && Kept(path, hit) ==>
      exists r :: Chain(Prune(forest, hit), r) && SameNodes(path, r)
    ensures forall r :: Chain(Prune(forest, hit), r) ==>
      exists path :: Chain(forest, path) && SameNodes(path, r) && Kept(path, hit)
  {
    forall path | Chain(forest, path) && Kept(path, hit)
      ensures exists r :: Chain(Prune(forest, hit), r) && SameNodes(path, r)
    {
      var r := RuleIsKept(forest, path, hit);
    }
    forall r | Chain(Prune(forest, hit), r)
      ensures exists path :: Chain(forest, path) && SameNodes(path, r) && Kept(path, hit)
    {
      var path := KeptIsRule(forest, r, hit);
    }
  }

  // ---- What the filter text means ------------------------------------------

  ghost predicate Occurs(needle: string, s: string) {
    exists a, b :: s == a + needle + b
  }

  lemma ContainsExactly(s: string, needle: string)
    ensures Contains(s, needle) <==> Occurs(needle, s)
  {
    if i :| 0 <= i <= |s| && StartsWith(s[i..], needle) {
      assert s == s[..i] + needle + s[i + |needle|..];
    }
    if a, b :| s == a + needle + b {
      assert s[|a|..][..|needle|] == needle;
    }
  }

  lemma {:induction false} PruneAgrees(nodes: seq<Node>, hit: string -> bool, other: string -> bool)
    requires forall t :: hit(t) <==> other(t)
    ensures Prune(nodes, hit) == Prune(nodes, other)
    decreases nodes
  {
    if nodes != [] {
      if nodes[0].Branch? {
        PruneAgrees(nodes[0].children, hit, other);
      }
      PruneAgrees(nodes[1..], hit, other);
    }
  }

  /** The filter text, trimmed and in lower case, is looked for in the titles in
      lower case; a blank one keeps everything. */
  lemma FilterMeaning(nodes: seq<Node>, filter: string, lower: string -> string, hit: string -> bool)
    requires forall t :: hit(t) <==> Occurs(lower(Trim(filter)), lower(t))
    ensures FilterExplorerNodes(nodes, filter, lower)
         == if lower(Trim(filter)) == "" then nodes else Prune(nodes, hit)
  {
    var needle := lower(Trim(filter));
    forall t
      ensures hit(t) <==> Contains(lower(t), needle)
    {
      ContainsExactly(lower(t), needle);
    }
    PruneAgrees(nodes, hit, title => Contains(lower(title), needle));
  }

  /** The nodes that match or lead to a match. */
  ghost function Hits(nodes: seq<Node>, hit: string -> bool): seq<Node> {
    if nodes == [] then [] else (if HasHit(nodes[0], hit) then [nodes[0]] else []) + Hits(nodes[1..], hit)
  }

  /** They keep their order and their number. */
  lemma {:induction false} OrderIsKept(nodes: seq<Node>, hit: string -> bool)
    ensures SameNodes(Hits(nodes, hit), Prune(nodes, hit))
    decreases |nodes|
  {
    if nodes != [] {
      KeepsHits(nodes[0], hit);
      OrderIsKept(nodes[1..], hit);
    }
  }
}
