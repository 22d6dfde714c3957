/** Which queued task a runner may claim. */
module ClaimRouter {
  import opened Prelude

  datatype Task = Task(
    scopeGlobs: seq<string>, requiredTools: seq<string>, requiredTags: seq<string>,
    tenant: Option<string>, workspaceRoot: Option<string>, requireBaseCommit: bool, baseCommit: string)

  datatype Runner = Runner(
    scopePrefixes: seq<string>, tools: seq<string>, tags: seq<string>,
    tenant: Option<string>, workspaceRoot: Option<string>, lastKnownCommit: Option<string>)

  // ---- Paths and prefixes --------------------------------------------------

  /** `replace('\\', "/")`. */
  function Slashes(s: string): (r: string)
    ensures |r| == |s|
    ensures forall i :: 0 <= i < |s| ==> r[i] == if s[i] == '\\' then '/' else s[i]
  {
    seq(|s|, i requires 0 <= i < |s| => if s[i] == '\\' then '/' else s[i])
  }

  function TrimSlashes(s: string): string {
    if s != [] && s[|s| - 1] == '/' then TrimSlashes(s[..|s| - 1]) else s
  }

  /** A runner prefix as the router compares it. */
  function Normalized(p: string): string {
    TrimSlashes(Slashes(p)) + "/"
  }

  function NormalizedAll(ps: seq<string>): seq<string> {
    if ps == [] then []
    else (if ps[0] == "" then [] else [Normalized(ps[0])]) + NormalizedAll(ps[1..])
  }

  /** Backslashes become slashes; trailing slashes are popped, one is pushed. */
  method Normalize(p: string) returns (s: string)
    ensures s == Normalized(p)
  {
    s := Slashes(p);
    while s != "" && s[|s| - 1] == '/'
      invariant TrimSlashes(s) == TrimSlashes(Slashes(p))
      decreases |s|
    {
      s := s[..|s| - 1];
    }
    s := s + "/";
  }

  /** `RunnerView::from_raw`: empty prefixes go, the rest are normalised. */
  method FromRaw(
      scopePrefixes: seq<string>, tools: seq<string>, tags: seq<string>,
      tenant: Option<string>, workspaceRoot: Option<string>, lastKnownCommit: Option<string>)
    returns (r: Runner)
    ensures r == Runner(NormalizedAll(scopePrefixes), tools, tags, tenant, workspaceRoot, lastKnownCommit)
    ensures forall p :: p in r.scopePrefixes ==> IsNormalized(p)
  {
    var normalized: seq<string> := [];
    for i := 0 to |scopePrefixes|
      invariant normalized + NormalizedAll(scopePrefixes[i..]) == NormalizedAll(scopePrefixes)
    {
      NormalizedNext(normalized, scopePrefixes, i);
      if scopePrefixes[i] != "" {
        var s := Normalize(scopePrefixes[i]);
        normalized := normalized + [s];
      }
    }
    NormalizedAllShape(scopePrefixes);
    r := Runner(normalized, tools, tags, tenant, workspaceRoot, lastKnownCommit);
  }

  lemma NormalizedNext(done: seq<string>, ps: seq<string>, i: nat)
    requires i < |ps|
    ensures done + NormalizedAll(ps[i..])
         == (if ps[i] == "" then done else done + [Normalized(ps[i])]) + NormalizedAll(ps[i + 1..])
  {
    assert ps[i..][1..] == ps[i + 1..];
  }

  /** No backslash, and exactly one trailing slash. */
  ghost predicate IsNormalized(p: string) {
    && p != "" && p[|p| - 1] == '/' && '\\' !in p
    && (|p| > 1 ==> p[|p| - 2] != '/')
  }

  lemma {:induction false} TrimSlashesShape(s: string)
    ensures TrimSlashes(s) <= s
    ensures TrimSlashes(s) != "" ==> TrimSlashes(s)[|TrimSlashes(s)| - 1] != '/'
  {
    if s != [] && s[|s| - 1] == '/' {
      TrimSlashesShape(s[..|s| - 1]);
    }
  }

  lemma NormalizedShape(p: string)
    ensures IsNormalized(Normalized(p))
  {
    var t := TrimSlashes(Slashes(p));
    TrimSlashesShape(Slashes(p));
    assert forall i :: 0 <= i < |t| ==> t[i] == Slashes(p)[i];
  }

  lemma {:induction false} NormalizedAllShape(ps: seq<string>)
    ensures forall p :: p in NormalizedAll(ps) ==> IsNormalized(p)
  {
    if ps != [] {
      NormalizedShape(ps[0]);
      NormalizedAllShape(ps[1..]);
    }
  }

  // ---- The static prefix of a glob -----------------------------------------

  predicate Wild(c: char) {
    c == '*' || c == '?' || c == '['
  }

  /** Where the first wildcard stands, or the length. */
  function Cut(s: string): (i: nat)
    ensures i <= |s|
    ensures i < |s| ==> Wild(s[i])
    ensures forall j :: 0 <= j < i ==> !Wild(s[j])
  {
    if s == [] || Wild(s[0]) then 0 else 1 + Cut(s[1..])
  }

  /** `rfind('/')`. */
  function LastSlash(s: string): (r: Option<nat>)
    ensures r.Some? ==> r.value < |s| && s[r.value] == '/'
    ensures forall j :: 0 <= j < |s| && (r.Some? ==> r.value < j) ==> s[j] != '/'
  {
    if s == [] then None
    else if s[|s| - 1] == '/' then Some(|s| - 1)
    else LastSlash(s[..|s| - 1])
  }

  function GlobStaticPrefix(glob: string): string {
    var norm := Slashes(glob);
    var head := norm[..Cut(norm)];
    match LastSlash(head)
    case Some(i) => head[..i] + "/"
    case None => ""
  }

  /** The source's version: look for a backslash first, normalise only then. */
  method ComputeStaticPrefix(glob: string) returns (prefix: string)
    ensures prefix == GlobStaticPrefix(glob)
  {
    var hadBackslash := false;
    for i := 0 to |glob|
      invariant hadBackslash <==> '\\' in glob[..i]
    {
      if glob[i] == '\\' {
        hadBackslash := true;
        assert glob[..i + 1][i] == '\\';
        break;
      }
      assert glob[..i + 1] == glob[..i] + [glob[i]];
    }
    assert !hadBackslash ==> glob[..|glob|] == glob && Slashes(glob) == glob;
    var norm := if hadBackslash then Slashes(glob) else glob;
    var head := norm[..Cut(norm)];
    var slash := LastSlash(head);
    prefix := if slash.Some? then head[..slash.value] + "/" else "";
  }

  // ---- Scopes --------------------------------------------------------------

  predicate Overlaps(head: string, prefix: string) {
    StartsWith(head, prefix) || StartsWith(prefix, head)
  }

  predicate ScopesWithin(globs: seq<string>, prefixes: seq<string>) {
    prefixes == [] ||
    forall g :: g in globs ==> exists p :: p in prefixes && Overlaps(GlobStaticPrefix(g), p)
  }

  /** The loop over globs, with its early exit. */
  method ComputeScopesWithin(globs: seq<string>, prefixes: seq<string>) returns (ok: bool)
    ensures ok <==> ScopesWithin(globs, prefixes)
  {
    if prefixes == [] {
      return true;
    }
    for i := 0 to |globs|
      invariant forall j :: 0 <= j < i ==> exists p :: p in prefixes && Overlaps(GlobStaticPrefix(globs[j]), p)
    {
      var head := ComputeStaticPrefix(globs[i]);
      if !exists p :: p in prefixes && Overlaps(head, p) {
        return false;
      }
    }
    ok := true;
  }

  // ---- What globs match ----------------------------------------------------

  /** All that the scope test relies on: a path that a glob matches starts with
      what stands before the glob's first wildcard. */
  ghost predicate LiteralFirst(matcher: (string, string) -> bool) {
    forall glob, path :: matcher(glob, path) ==> StartsWith(path, glob[..Cut(glob)])
  }

  lemma StaticPrefixIsLiteral(glob: string)
    ensures var norm := Slashes(glob); StartsWith(norm[..Cut(norm)], GlobStaticPrefix(glob))
  {
    var norm := Slashes(glob);
    var head := norm[..Cut(norm)];
    if LastSlash(head).Some? {
      var i := LastSlash(head).value;
      assert head[..i] + "/" == head[..i + 1];
    }
  }

  lemma StartsWithTransitive(a: string, b: string, c: string)
    requires StartsWith(a, b) && StartsWith(b, c)
    ensures StartsWith(a, c)
  {
    assert a[..|c|] == a[..|b|][..|c|];
  }

  /** Every path a glob matches lies under its static prefix. */
  lemma MatchesUnderPrefix(glob: string, path: string, matcher: (string, string) -> bool)
    requires LiteralFirst(matcher) && matcher(Slashes(glob), path)
    ensures StartsWith(path, GlobStaticPrefix(glob))
  {
    StaticPrefixIsLiteral(glob);
    StartsWithTransitive(path, Slashes(glob)[..Cut(Slashes(glob))], GlobStaticPrefix(glob));
  }

  /** The cheap test never rejects a real overlap: when every glob matches some
      path under some runner prefix, the task is within scope. */
  lemma ScopeTestComplete(
      globs: seq<string>, prefixes: seq<string>, matcher: (string, string) -> bool, sample: string -> string)
    requires LiteralFirst(matcher)
    requires forall g :: g in globs ==> matcher(Slashes(g), sample(g))
    requires forall g :: g in globs ==> exists p :: p in prefixes && StartsWith(sample(g), p)
    ensures ScopesWithin(globs, prefixes)
  {
    forall g | g in globs
      ensures exists p :: p in prefixes && Overlaps(GlobStaticPrefix(g), p)
    {
      var p :| p in prefixes && StartsWith(sample(g), p);
      MatchesUnderPrefix(g, sample(g), matcher);
      PrefixesOfOnePath(sample(g), GlobStaticPrefix(g), p);
    }
  }

  lemma PrefixesOfOnePath(path: string, a: string, b: string)
    requires StartsWith(path, a) && StartsWith(path, b)
    ensures Overlaps(a, b)
  {
    if |a| <= |b| {
      assert b[..|a|] == path[..|b|][..|a|];
    } else {
      assert a[..|b|] == path[..|a|][..|b|];
    }
  }

  /** When the static prefix extends the runner prefix, the overlap is total. */
  lemma WithinIsTotal(glob: string, prefix: string, path: string, matcher: (string, string) -> bool)
    requires LiteralFirst(matcher) && StartsWith(GlobStaticPrefix(glob), prefix) && matcher(Slashes(glob), path)
    ensures StartsWith(path, prefix)
  {
    MatchesUnderPrefix(glob, path, matcher);
    StartsWithTransitive(path, GlobStaticPrefix(glob), prefix);
  }

  /** The converse fails: `a/b` names one path, which does not lie under `a/c/`,
      and is accepted all the same. */
  lemma ScopeTestNotExact(path: string, matcher: (string, string) -> bool)
    requires LiteralFirst(matcher) && matcher(Slashes("a/b"), path)
    ensures ScopesWithin(["a/b"], ["a/c/"]) && IsNormalized("a/c/") && !StartsWith(path, "a/c/")
  {
    var g := Slashes("a/b");
    assert g == "a/b";
    assert Cut(g) == 3;
    assert g[..3] == g;
    assert LastSlash(g) == Some(1) by {
      assert LastSlash(g).Some? ==> LastSlash(g).value == 1;
    }
    assert GlobStaticPrefix("a/b") == "a/";
    assert "a/c/"[..2] == "a/";
    assert Overlaps("a/", "a/c/");
    assert "a/c/" in ["a/c/"];
    assert path[2] == path[..3][2] == 'b';
    assert "a/c/"[2] == 'c';
  }

  // ---- Two readings of globs -----------------------------------------------

  /** The bracket that closes the class opened at 0; the first character of a
      class, behind an exclamation mark if there is one, is never its end. */
  function ClassEnd(pattern: string): (i: nat)
    requires pattern != []
    ensures 1 <= i <= |pattern|
  {
    var from := if |pattern| > 1 && pattern[1] == '!' then 3 else 2;
    if |pattern| <= from then |pattern| else FindBracket(pattern, from)
  }

  function FindBracket(pattern: string, from: nat): (i: nat)
    requires from <= |pattern|
    ensures from <= i <= |pattern|
    decreases |pattern| - from
  {
    if from == |pattern| || pattern[from] == ']' then from else FindBracket(pattern, from + 1)
  }

  /** How `fnmatch` reads a glob: `*` matches any text, slashes
      included, and so does `**`. What a bracket expression matches is left
      open. */
  predicate GlobMatches(pattern: string, path: string, inClass: (string, char) -> bool)
    decreases |pattern|, |path|
  {
    if pattern == [] then path == []
    else if pattern[0] == '*' then
      GlobMatches(pattern[1..], path, inClass) || (path != [] && GlobMatches(pattern, path[1..], inClass))
    else if path == [] then false
    else if pattern[0] == '?' then GlobMatches(pattern[1..], path[1..], inClass)
    else if pattern[0] == '[' && ClassEnd(pattern) < |pattern| then
      && inClass(pattern[1..ClassEnd(pattern)], path[0])
      && GlobMatches(pattern[ClassEnd(pattern) + 1..], path[1..], inClass)
    else pattern[0] == path[0] && GlobMatches(pattern[1..], path[1..], inClass)
  }

  /** How its documentation reads one: `*` stays within a path component, `**`
      with a slash behind it stands for any number of whole components, none
      included, and any other `**` for any text. */
  predicate GlobstarMatches(pattern: string, path: string, inClass: (string, char) -> bool)
    decreases |pattern|, |path|
  {
    if pattern == [] then path == []
    else if StartsWith(pattern, "**/") then
      exists k: nat :: k <= |path| && (k > 0 ==> path[k - 1] == '/')
        && GlobstarMatches(pattern[3..], path[k..], inClass)
    else if StartsWith(pattern, "**") then
      exists k: nat :: k <= |path| && GlobstarMatches(pattern[2..], path[k..], inClass)
    else if pattern[0] == '*' then
      || GlobstarMatches(pattern[1..], path, inClass)
      || (path != [] && path[0] != '/' && GlobstarMatches(pattern, path[1..], inClass))
    else if path == [] then false
    else if pattern[0] == '?' then path[0] != '/' && GlobstarMatches(pattern[1..], path[1..], inClass)
    else if pattern[0] == '[' && ClassEnd(pattern) < |pattern| then
      && inClass(pattern[1..ClassEnd(pattern)], path[0])
      && GlobstarMatches(pattern[ClassEnd(pattern) + 1..], path[1..], inClass)
    else pattern[0] == path[0] && GlobstarMatches(pattern[1..], path[1..], inClass)
  }

  lemma LiteralStep(pattern: string, path: string)
    requires pattern != [] && !Wild(pattern[0]) && path != [] && path[0] == pattern[0]
    requires StartsWith(path[1..], pattern[1..][..Cut(pattern[1..])])
    ensures StartsWith(path, pattern[..Cut(pattern)])
  {
    var n := Cut(pattern[1..]);
    assert pattern[..n + 1] == [pattern[0]] + pattern[1..][..n];
    assert path[..n + 1] == [path[0]] + path[1..][..n];
  }

  lemma {:induction false} GlobLiteral(pattern: string, path: string, inClass: (string, char) -> bool)
    requires GlobMatches(pattern, path, inClass)
    ensures StartsWith(path, pattern[..Cut(pattern)])
    decreases |pattern|
  {
    if pattern != [] && !Wild(pattern[0]) {
      GlobLiteral(pattern[1..], path[1..], inClass);
      LiteralStep(pattern, path);
    }
  }

  lemma DoubleStarIsWild(pattern: string)
    ensures StartsWith(pattern, "**") ==> pattern[0] == '*'
    ensures StartsWith(pattern, "**/") ==> pattern[0] == '*'
  {
    if StartsWith(pattern, "**") {
      assert pattern[..2][0] == '*';
    }
    if StartsWith(pattern, "**/") {
      assert pattern[..3][0] == '*';
    }
  }

  lemma {:induction false} GlobstarLiteral(pattern: string, path: string, inClass: (string, char) -> bool)
    requires GlobstarMatches(pattern, path, inClass)
    ensures StartsWith(path, pattern[..Cut(pattern)])
    decreases |pattern|
  {
    if pattern != [] && !Wild(pattern[0]) {
      DoubleStarIsWild(pattern);
      GlobstarLiteral(pattern[1..], path[1..], inClass);
      LiteralStep(pattern, path);
    }
  }

  /** Read on the path as it stands, both are matchers in the sense of the scope
      theorems. */
  lemma ReadingsAreLiteralFirst(inClass: (string, char) -> bool)
    ensures LiteralFirst((glob, path) => GlobMatches(glob, path, inClass))
    ensures LiteralFirst((glob, path) => GlobstarMatches(glob, path, inClass))
  {
    forall glob, path | GlobMatches(glob, path, inClass)
      ensures StartsWith(path, glob[..Cut(glob)])
    {
      GlobLiteral(glob, path, inClass);
    }
    forall glob, path | GlobstarMatches(glob, path, inClass)
      ensures StartsWith(path, glob[..Cut(glob)])
    {
      GlobstarLiteral(glob, path, inClass);
    }
  }

  /** In the second reading `tests/` followed by a double star and a slash adds
      nothing to what the rest matches in `tests/` itself. */
  lemma {:induction false} GlobstarSkips(dir: string, rest: string, path: string, inClass: (string, char) -> bool)
    requires Cut(dir) == |dir| && GlobstarMatches(rest, path, inClass)
    ensures GlobstarMatches(dir + "**/" + rest, dir + path, inClass)
    decreases |dir|
  {
    var pattern := dir + "**/" + rest;
    if dir == [] {
      assert dir + path == path;
      assert pattern[..3] == "**/" && pattern[3..] == rest && path[0..] == path;
    } else {
      assert pattern[0] == dir[0] && pattern[1..] == dir[1..] + "**/" + rest;
      assert (dir + path)[0] == dir[0] && (dir + path)[1..] == dir[1..] + path;
      DoubleStarIsWild(pattern);
      GlobstarSkips(dir[1..], rest, path, inClass);
    }
  }

  // ---- What the runner matches ---------------------------------------------

  /** `lstrip("./")`: every leading dot and slash. */
  function StripLead(s: string): (r: string)
    ensures r != [] ==> r[0] != '.' && r[0] != '/'
  {
    if s != [] && (s[0] == '.' || s[0] == '/') then StripLead(s[1..]) else s
  }

  /** `_normalise`. */
  function RunnerPath(path: string): string {
    StripLead(Slashes(path))
  }

  /** `replace("**", "*")`. */
  function Collapse(s: string): string {
    if s == [] then []
    else if StartsWith(s, "**") then "*" + Collapse(s[2..])
    else [s[0]] + Collapse(s[1..])
  }

  predicate HasDoubleStar(s: string) {
    s != [] && (StartsWith(s, "**") || HasDoubleStar(s[1..]))
  }

  /** `matches_any` on one glob. The path loses its leading dots and slashes, the
      glob keeps its own. */
  predicate RunnerMatches(glob: string, path: string, inClass: (string, char) -> bool) {
    var pattern := Slashes(glob);
    || GlobMatches(pattern, RunnerPath(path), inClass)
    || (HasDoubleStar(pattern) && GlobMatches(Collapse(pattern), RunnerPath(path), inClass))
  }

  /** `matches_any`: the loop over the globs, the fallback second. */
  method MatchesAny(path: string, globs: seq<string>, inClass: (string, char) -> bool) returns (ok: bool)
    ensures ok <==> exists g :: g in globs && RunnerMatches(g, path, inClass)
  {
    var norm := RunnerPath(path);
    for i := 0 to |globs|
      invariant forall j :: 0 <= j < i ==> !RunnerMatches(globs[j], path, inClass)
    {
      var pattern := Slashes(globs[i]);
      if GlobMatches(pattern, norm, inClass) {
        assert globs[i] in globs && RunnerMatches(globs[i], path, inClass);
        return true;
      }
      if HasDoubleStar(pattern) {
        if GlobMatches(Collapse(pattern), norm, inClass) {
          assert globs[i] in globs && RunnerMatches(globs[i], path, inClass);
          return true;
        }
      }
    }
    ok := false;
  }

  lemma {:induction false} CollapseKeepsLiteral(s: string)
    ensures Cut(Collapse(s)) == Cut(s) && Collapse(s)[..Cut(s)] == s[..Cut(s)]
  {
    DoubleStarIsWild(s);
    if s != [] && !Wild(s[0]) {
      CollapseKeepsLiteral(s[1..]);
      var n := Cut(s[1..]);
      assert Collapse(s)[1..] == Collapse(s[1..]);
      assert s[..n + 1] == [s[0]] + s[1..][..n];
      assert Collapse(s)[..n + 1] == [s[0]] + Collapse(s[1..])[..n];
    }
  }

  /** What stands before the first wildcard is matched in the stripped path. */
  lemma RunnerLiteral(glob: string, path: string, inClass: (string, char) -> bool)
    requires RunnerMatches(glob, path, inClass)
    ensures var pattern := Slashes(glob); StartsWith(RunnerPath(path), pattern[..Cut(pattern)])
  {
    var pattern := Slashes(glob);
    if GlobMatches(pattern, RunnerPath(path), inClass) {
      GlobLiteral(pattern, RunnerPath(path), inClass);
    } else {
      GlobLiteral(Collapse(pattern), RunnerPath(path), inClass);
      CollapseKeepsLiteral(pattern);
    }
  }

  lemma {:induction false} StarMatchesAll(path: string, inClass: (string, char) -> bool)
    ensures GlobMatches("*", path, inClass)
    decreases |path|
  {
    assert "*"[1..] == "";
    if path != [] {
      StarMatchesAll(path[1..], inClass);
    }
  }

  lemma {:induction false} LiteralThenStar(lead: string, path: string, inClass: (string, char) -> bool)
    requires Cut(lead) == |lead| && StartsWith(path, lead)
    ensures GlobMatches(lead + "*", path, inClass)
    decreases |lead|
  {
    if lead == [] {
      assert lead + "*" == "*";
      StarMatchesAll(path, inClass);
    } else {
      assert path[..|lead|][0] == path[0] && path[1..][..|lead| - 1] == path[..|lead|][1..];
      assert (lead + "*")[1..] == lead[1..] + "*";
      LiteralThenStar(lead[1..], path[1..], inClass);
    }
  }

  lemma {:induction false} CutBehind(lead: string)
    requires forall i :: 0 <= i < |lead| ==> !Wild(lead[i])
    ensures Cut(lead) == |lead| && Cut(lead + "*") == |lead|
  {
    if lead != [] {
      assert (lead + "*")[1..] == lead[1..] + "*";
      CutBehind(lead[1..]);
    } else {
      assert lead + "*" == "*";
    }
  }

  /** For a path, the runner's matching is literal-first with every glob. */
  ghost predicate LiteralFirstAt(path: string, inClass: (string, char) -> bool) {
    forall glob :: RunnerMatches(glob, path, inClass) ==>
      StartsWith(Slashes(path), Slashes(glob)[..Cut(Slashes(glob))])
  }

  lemma PlainSlashes(s: string)
    requires '\\' !in s
    ensures Slashes(s) == s
  {
    assert forall i :: 0 <= i < |s| ==> s[i] in s;
  }

  lemma {:induction false} StripCut(s: string) returns (n: nat)
    ensures n <= |s| && StripLead(s) == s[n..]
  {
    n := 0;
    if s != [] && (s[0] == '.' || s[0] == '/') {
      var m := StripCut(s[1..]);
      n := m + 1;
      assert s[1..][m..] == s[n..];
    }
  }

  lemma StripKeepsTail(s: string)
    ensures exists n :: 0 <= n <= |s| && StripLead(s) == s[n..]
    ensures forall c :: c in StripLead(s) ==> c in s
    ensures StripLead(s) != s ==> s != [] && (s[0] == '.' || s[0] == '/')
  {
    var n := StripCut(s);
    var tail := s[n..];
    assert forall i :: 0 <= i < |tail| ==> tail[i] == s[n + i];
  }

  lemma RunnerPathPlain(path: string)
    ensures '\\' !in RunnerPath(path)
  {
    StripKeepsTail(Slashes(path));
    assert forall i :: 0 <= i < |path| ==> Slashes(path)[i] != '\\';
  }

  /** That is so exactly when stripping leaves the path as it is, or leaves
      nothing, or something no literal can match the start of. */
  lemma LiteralFirstExact(path: string, inClass: (string, char) -> bool)
    ensures LiteralFirstAt(path, inClass) <==>
      var q := RunnerPath(path); q == Slashes(path) || q == "" || Wild(q[0])
  {
    var p, q := Slashes(path), RunnerPath(path);
    StripKeepsTail(p);
    if q == p || q == "" || Wild(q[0]) {
      forall glob | RunnerMatches(glob, path, inClass)
        ensures StartsWith(p, Slashes(glob)[..Cut(Slashes(glob))])
      {
        RunnerLiteral(glob, path, inClass);
        var lead := Slashes(glob)[..Cut(Slashes(glob))];
        if q != p && lead != "" {
          StartsWithHead(q, lead);
          assert false;
        }
      }
    } else {
      var lead := [q[0]];
      var glob := lead + "*";
      CutBehind(lead);
      assert q[..1] == lead;
      LiteralThenStar(lead, q, inClass);
      RunnerPathPlain(path);
      assert q[0] in q;
      PlainSlashes(glob);
      assert glob[..1] == lead;
      StartsWithHead(p, lead);
      assert RunnerMatches(glob, path, inClass);
    }
  }

  // ---- When the scope test fails the runner --------------------------------

  /** Whatever glob the runner matches the path with and whatever normalised
      prefix the path lies under, the scope test lets the two meet. */
  ghost predicate NeverRejected(path: string, inClass: (string, char) -> bool) {
    forall glob, prefix ::
      RunnerMatches(glob, path, inClass) && IsNormalized(prefix) && StartsWith(Slashes(path), prefix) ==>
        ScopesWithin([glob], [prefix])
  }

  lemma OneScope(glob: string, prefix: string)
    ensures ScopesWithin([glob], [prefix]) <==> Overlaps(GlobStaticPrefix(glob), prefix)
  {
    assert glob in [glob] && prefix in [prefix];
  }

  lemma {:induction false} LastSlashFound(s: string)
    ensures LastSlash(s).Some? <==> '/' in s
  {
    if s != [] && s[|s| - 1] != '/' {
      LastSlashFound(s[..|s| - 1]);
      assert s == s[..|s| - 1] + [s[|s| - 1]];
    }
  }

  /** A directory in front of the first wildcard of a text. */
  predicate HasDirectory(s: string) {
    '/' in s[..Cut(s)]
  }

  lemma StaticPrefixEmpty(glob: string)
    ensures GlobStaticPrefix(glob) == "" <==> !HasDirectory(Slashes(glob))
  {
    LastSlashFound(Slashes(glob)[..Cut(Slashes(glob))]);
  }

  lemma NoDirectoryNoPrefix(glob: string, path: string, inClass: (string, char) -> bool)
    requires RunnerMatches(glob, path, inClass) && !HasDirectory(RunnerPath(path))
    ensures GlobStaticPrefix(glob) == ""
  {
    var q, pattern := RunnerPath(path), Slashes(glob);
    var lead := pattern[..Cut(pattern)];
    RunnerLiteral(glob, path, inClass);
    StaticPrefixEmpty(glob);
    assert |lead| <= Cut(q) by {
      assert forall i :: 0 <= i < |lead| ==> q[..|lead|][i] == lead[i] && !Wild(lead[i]);
    }
    assert lead == q[..Cut(q)][..|lead|];
    PrefixChars(q[..Cut(q)], lead);
  }

  lemma PrefixChars(s: string, prefix: string)
    requires StartsWith(s, prefix)
    ensures forall c :: c in prefix ==> c in s
  {
    assert forall i :: 0 <= i < |prefix| ==> s[..|prefix|][i] == s[i];
  }

  /** A literal directory with a star behind it. */
  lemma DirectoryGlob(q: string, f: nat, inClass: (string, char) -> bool)
    requires f < |q| && q[f] == '/' && '\\' !in q && forall i :: 0 <= i <= f ==> !Wild(q[i])
    ensures var glob := q[..f + 1] + "*";
      Slashes(glob) == glob && GlobMatches(glob, q, inClass) && GlobStaticPrefix(glob) == q[..f + 1]
  {
    var dir := q[..f + 1];
    var glob := dir + "*";
    CutBehind(dir);
    LiteralThenStar(dir, q, inClass);
    PrefixChars(q, dir);
    PlainSlashes(glob);
    assert glob[..|dir|] == dir && LastSlash(dir) == Some(f);
    assert dir[..f] + "/" == dir;
  }

  /** The glob and the prefix that are kept apart: the stripped path's first
      directory with a star, and the same directory with the dots in front. */
  lemma RejectedPair(path: string, inClass: (string, char) -> bool) returns (glob: string, prefix: string)
    requires RunnerPath(path) != Slashes(path) && HasDirectory(RunnerPath(path))
    ensures RunnerMatches(glob, path, inClass) && IsNormalized(prefix) && StartsWith(Slashes(path), prefix)
    ensures !ScopesWithin([glob], [prefix])
  {
    var p, q := Slashes(path), RunnerPath(path);
    StripKeepsTail(p);
    RunnerPathPlain(path);
    var n := StripCut(p);
    var f := IndexOf(q, '/');
    DirectoryIndex(q);
    StripTails(p, q, n, f);
    glob, prefix := q[..f + 1] + "*", p[..n + f + 1];
    DirectoryPrefix(path, n, f);
    MatchedByDirectory(path, f, inClass);
    KeptApart(q[..f + 1], glob, prefix);
  }

  lemma MatchedByDirectory(path: string, f: nat, inClass: (string, char) -> bool)
    requires var q := RunnerPath(path);
      f < |q| && q[f] == '/' && '\\' !in q && forall i :: 0 <= i <= f ==> !Wild(q[i])
    ensures var q := RunnerPath(path); var glob := q[..f + 1] + "*";
      RunnerMatches(glob, path, inClass) && GlobStaticPrefix(glob) == q[..f + 1]
  {
    DirectoryGlob(RunnerPath(path), f, inClass);
  }

  lemma KeptApart(dir: string, glob: string, prefix: string)
    requires GlobStaticPrefix(glob) == dir && dir != "" && prefix != "" && dir[0] != prefix[0]
    ensures !ScopesWithin([glob], [prefix])
  {
    DifferentStarts(dir, prefix);
    OneScope(glob, prefix);
  }

  lemma StripTails(p: string, q: string, n: nat, f: nat)
    requires n <= |p| && q == p[n..] && 0 < f < |q|
    ensures p[n + f] == q[f] && p[n + f - 1] == q[f - 1]
    ensures q[..f + 1][0] == q[0] && p[..n + f + 1][0] == p[0]
  {
  }

  lemma DirectoryPrefix(path: string, n: nat, f: nat)
    requires 0 < f && n + f < |path|
    requires Slashes(path)[n + f] == '/' && Slashes(path)[n + f - 1] != '/'
    ensures IsNormalized(Slashes(path)[..n + f + 1]) && Slashes(path)[..n + f + 1][0] == Slashes(path)[0]
  {
    var prefix := Slashes(path)[..n + f + 1];
    assert forall i :: 0 <= i < |prefix| ==> prefix[i] == Slashes(path)[i];
  }

  lemma DirectoryIndex(q: string)
    requires HasDirectory(q) && q[0] != '/'
    ensures var f := IndexOf(q, '/'); 0 < f < |q| && f < Cut(q) && q[f] == '/' && q[f - 1] != '/'
    ensures var f := IndexOf(q, '/'); forall i :: 0 <= i <= f ==> !Wild(q[i])
  {
    var f := IndexOf(q, '/');
    var i :| 0 <= i < Cut(q) && q[..Cut(q)][i] == '/';
    FirstAtMost(q, '/', i);
    BeforeIndex(q, '/');
    assert q[..f][f - 1] == q[f - 1];
  }

  lemma DifferentStarts(a: string, b: string)
    requires a != "" && b != "" && a[0] != b[0]
    ensures !Overlaps(a, b)
  {
    StartsWithHead(a, b);
    StartsWithHead(b, a);
  }

  /** With the runner's matching the scope test rejects no real overlap of a path
      exactly when stripping leaves the path as it is, or leaves no directory
      before a wildcard. */
  lemma NeverRejectedExact(path: string, inClass: (string, char) -> bool)
    ensures NeverRejected(path, inClass) <==>
      RunnerPath(path) == Slashes(path) || !HasDirectory(RunnerPath(path))
  {
    var p, q := Slashes(path), RunnerPath(path);
    if q == p || !HasDirectory(q) {
      forall glob, prefix | RunnerMatches(glob, path, inClass) && IsNormalized(prefix) && StartsWith(p, prefix)
        ensures ScopesWithin([glob], [prefix])
      {
        OneScope(glob, prefix);
        if HasDirectory(q) {
          RunnerLiteral(glob, path, inClass);
          StaticPrefixIsLiteral(glob);
          StartsWithTransitive(p, Slashes(glob)[..Cut(Slashes(glob))], GlobStaticPrefix(glob));
          PrefixesOfOnePath(p, GlobStaticPrefix(glob), prefix);
        } else {
          NoDirectoryNoPrefix(glob, path, inClass);
        }
      }
    } else {
      var glob, prefix := RejectedPair(path, inClass);
      assert !NeverRejected(path, inClass);
    }
  }

  /** Whatever glob the runner matches the path with and whatever normalised
      prefix the glob's static prefix extends, the path lies under it. */
  ghost predicate AlwaysWithin(path: string, inClass: (string, char) -> bool) {
    forall glob, prefix ::
      RunnerMatches(glob, path, inClass) && IsNormalized(prefix) && StartsWith(GlobStaticPrefix(glob), prefix) ==>
        StartsWith(Slashes(path), prefix)
  }

  /** The total overlap has the same exact condition. */
  lemma AlwaysWithinExact(path: string, inClass: (string, char) -> bool)
    ensures AlwaysWithin(path, inClass) <==>
      RunnerPath(path) == Slashes(path) || !HasDirectory(RunnerPath(path))
  {
    var p, q := Slashes(path), RunnerPath(path);
    if q == p || !HasDirectory(q) {
      forall glob, prefix | RunnerMatches(glob, path, inClass) && IsNormalized(prefix)
        && StartsWith(GlobStaticPrefix(glob), prefix)
        ensures StartsWith(p, prefix)
      {
        if HasDirectory(q) {
          RunnerLiteral(glob, path, inClass);
          StaticPrefixIsLiteral(glob);
          StartsWithTransitive(p, Slashes(glob)[..Cut(Slashes(glob))], GlobStaticPrefix(glob));
          StartsWithTransitive(p, GlobStaticPrefix(glob), prefix);
        } else {
          NoDirectoryNoPrefix(glob, path, inClass);
        }
      }
    } else {
      var f := IndexOf(q, '/');
      StripKeepsTail(p);
      RunnerPathPlain(path);
      DirectoryIndex(q);
      var dir := q[..f + 1];
      DirectoryGlob(q, f, inClass);
      PrefixChars(q, dir);
      StartsWithHead(p, dir);
      assert RunnerMatches(dir + "*", path, inClass) && IsNormalized(dir) && StartsWith(dir, dir);
      assert !StartsWith(p, dir);
    }
  }

  /** For example: `git/` and a star matches `.git/x`, which lies under `.git/`. */
  lemma DotDirectoryRejected(inClass: (string, char) -> bool)
    ensures !NeverRejected(".git/x", inClass)
  {
    var p := ".git/x";
    PlainSlashes(p);
    assert p[1..] == "git/x";
    assert RunnerPath(p) == "git/x";
    assert "git/x"[3] == '/' && Cut("git/x") == 5;
    assert "git/x"[..5] == "git/x" && HasDirectory("git/x");
    NeverRejectedExact(p, inClass);
  }

  // ---- The match contract --------------------------------------------------

  function LowerChar(c: char): char {
    if 'A' <= c <= 'Z' then c + 32 as char else c
  }

  function Lower(s: string): (r: string)
    ensures |r| == |s|
  {
    seq(|s|, i requires 0 <= i < |s| => LowerChar(s[i]))
  }

  /** `eq_ignore_ascii_case`. */
  predicate EqIgnoreCase(a: string, b: string) {
    |a| == |b| && forall i :: 0 <= i < |a| ==> LowerChar(a[i]) == LowerChar(b[i])
  }

  predicate HasAll(required: seq<string>, offered: seq<string>) {
    forall t :: t in required ==> exists rt :: rt in offered && EqIgnoreCase(rt, t)
  }

  /** `matches`, gate by gate as the source leaves early. */
  predicate Matches(task: Task, runner: Runner) {
    if task.tenant.Some? && runner.tenant != task.tenant then false
    else if task.workspaceRoot.Some? && runner.workspaceRoot.Some?
         && task.workspaceRoot.value != runner.workspaceRoot.value then false
    else if !ScopesWithin(task.scopeGlobs, runner.scopePrefixes) then false
    else if !HasAll(task.requiredTools, runner.tools) then false
    else if !HasAll(task.requiredTags, runner.tags) then false
    else if task.requireBaseCommit then
      (match runner.lastKnownCommit
       case None => false
       case Some(commit) => commit == task.baseCommit)
    else true
  }

  ghost function LowerSet(xs: seq<string>): set<string> {
    set x | x in xs :: Lower(x)
  }

  lemma EqIgnoreCaseIsLower(a: string, b: string)
    ensures EqIgnoreCase(a, b) <==> Lower(a) == Lower(b)
  {
    if Lower(a) == Lower(b) {
      forall i | 0 <= i < |a|
        ensures LowerChar(a[i]) == LowerChar(b[i])
      {
        assert Lower(a)[i] == Lower(b)[i];
      }
    }
  }

  lemma HasAllIsInclusion(required: seq<string>, offered: seq<string>)
    ensures HasAll(required, offered) <==> LowerSet(required) <= LowerSet(offered)
  {
    forall a, b
      ensures EqIgnoreCase(a, b) <==> Lower(a) == Lower(b)
    {
      EqIgnoreCaseIsLower(a, b);
    }
    if LowerSet(required) <= LowerSet(offered) {
      forall t | t in required
        ensures exists rt :: rt in offered && EqIgnoreCase(rt, t)
      {
        assert Lower(t) in LowerSet(required);
        assert Lower(t) in LowerSet(offered);
      }
    }
  }

  /** The documented contract, with the case folding as inclusion of sets. */
  lemma MatchesIsContract(task: Task, runner: Runner)
    ensures Matches(task, runner) <==>
      && (task.tenant.Some? ==> runner.tenant == task.tenant)
      && (task.workspaceRoot.Some? && runner.workspaceRoot.Some? ==> task.workspaceRoot == runner.workspaceRoot)
      && (runner.scopePrefixes == [] || forall g :: g in task.scopeGlobs ==>
            exists p :: p in runner.scopePrefixes && Overlaps(GlobStaticPrefix(g), p))
      && LowerSet(task.requiredTools) <= LowerSet(runner.tools)
      && LowerSet(task.requiredTags) <= LowerSet(runner.tags)
      && (task.requireBaseCommit ==> runner.lastKnownCommit == Some(task.baseCommit))
  {
    HasAllIsInclusion(task.requiredTools, runner.tools);
    HasAllIsInclusion(task.requiredTags, runner.tags);
  }

  /** A runner that offers more, and was not open to every scope, keeps what it
      could claim. */
  lemma OfferingMoreKeepsMatches(task: Task, runner: Runner, more: Runner)
    requires Matches(task, runner)
    requires forall t :: t in runner.tools ==> t in more.tools
    requires forall t :: t in runner.tags ==> t in more.tags
    requires forall p :: p in runner.scopePrefixes ==> p in more.scopePrefixes
    requires runner.scopePrefixes == [] ==> more.scopePrefixes == []
    requires more.tenant == runner.tenant && more.workspaceRoot == runner.workspaceRoot
    requires more.lastKnownCommit == runner.lastKnownCommit
    ensures Matches(task, more)
  {
    forall g | runner.scopePrefixes != [] && g in task.scopeGlobs
      ensures exists p :: p in more.scopePrefixes && Overlaps(GlobStaticPrefix(g), p)
    {
      var p :| p in runner.scopePrefixes && Overlaps(GlobStaticPrefix(g), p);
      assert p in more.scopePrefixes;
    }
  }

  /** A first prefix closes a runner that was open to every scope. */
  lemma FirstPrefixLoses(task: Task, runner: Runner, prefix: string, g: string)
    requires runner.scopePrefixes == [] && g in task.scopeGlobs && !Overlaps(GlobStaticPrefix(g), prefix)
    ensures !Matches(task, runner.(scopePrefixes := [prefix]))
  {
    assert forall p :: p in [prefix] ==> p == prefix;
  }

  // ---- Picking -------------------------------------------------------------

  /** `pick_task`: the first match, and how many candidates were looked at. */
  method PickTask(tasks: seq<Task>, runner: Runner) returns (picked: Option<nat>, seen: nat)
    ensures picked == FirstMatch(tasks, runner)
    ensures seen == if picked.Some? then picked.value + 1 else |tasks|
  {
    seen := 0;
    for idx := 0 to |tasks|
      invariant seen == idx
      invariant FirstMatch(tasks, runner) == Shift(FirstMatch(tasks[idx..], runner), idx)
    {
      assert tasks[idx..][1..] == tasks[idx + 1..];
      seen := seen + 1;
      if Matches(tasks[idx], runner) {
        return Some(idx), seen;
      }
    }
    picked := None;
  }

  function Shift(i: Option<nat>, steps: nat): Option<nat> {
    match i case None => None case Some(n) => Some(n + steps)
  }

  function FirstMatch(tasks: seq<Task>, runner: Runner): (r: Option<nat>)
    ensures r.Some? ==> r.value < |tasks| && Matches(tasks[r.value], runner)
    ensures forall j :: 0 <= j < |tasks| && (r.Some? ==> j < r.value) ==> !Matches(tasks[j], runner)
  {
    if tasks == [] then None
    else if Matches(tasks[0], runner) then Some(0)
    else Shift(FirstMatch(tasks[1..], runner), 1)
  }

  /** Claiming until nothing matches: each pick leaves the queue. */
  function Drain(tasks: seq<Task>, runner: Runner): seq<Task>
    decreases |tasks|
  {
    match FirstMatch(tasks, runner)
    case None => []
    case Some(i) => [tasks[i]] + Drain(tasks[..i] + tasks[i + 1..], runner)
  }

  function Filter(tasks: seq<Task>, runner: Runner): seq<Task> {
    if tasks == [] then []
    else (if Matches(tasks[0], runner) then [tasks[0]] else []) + Filter(tasks[1..], runner)
  }

  lemma {:induction false} FilterSkips(tasks: seq<Task>, runner: Runner, i: nat)
    requires i <= |tasks| && forall j :: 0 <= j < i ==> !Matches(tasks[j], runner)
    ensures Filter(tasks, runner) == Filter(tasks[i..], runner)
  {
    if i > 0 {
      FilterSkips(tasks[1..], runner, i - 1);
      assert tasks[1..][i - 1..] == tasks[i..];
    }
  }

  /** A runner that keeps claiming gets exactly its matches, in queue order. */
  lemma {:induction false} DrainIsFilter(tasks: seq<Task>, runner: Runner)
    ensures Drain(tasks, runner) == Filter(tasks, runner)
    decreases |tasks|
  {
    match FirstMatch(tasks, runner)
    case None => FilterSkips(tasks, runner, |tasks|);
    case Some(i) =>
      var rest := tasks[..i] + tasks[i + 1..];
      DrainIsFilter(rest, runner);
      FilterSkips(tasks, runner, i);
      FilterSkips(rest, runner, i);
      assert rest[i..] == tasks[i + 1..] == tasks[i..][1..];
  }
}
