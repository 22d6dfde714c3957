/** What the router's and the runner's string operations compute, said without
    their recursions. */
module ClaimTexts {
  import opened Prelude
  import opened ClaimRouter

  // ---- Letter case ---------------------------------------------------------

  const UPPER := "ABCDEFGHIJKLMNOPQRSTUVWXYZ"
  const SMALL := "abcdefghijklmnopqrstuvwxyz"

  ghost predicate TwoCases(a: char, b: char) {
    exists k :: 0 <= k < 26 && ((a == UPPER[k] && b == SMALL[k]) || (a == SMALL[k] && b == UPPER[k]))
  }

  lemma AlphabetCodes(k: nat)
    requires k < 26
    ensures UPPER[k] as nat == 65 + k && SMALL[k] as nat == 97 + k
  {
  }

  lemma LowerCharExactly(a: char, b: char)
    ensures LowerChar(a) == LowerChar(b) <==> a == b || TwoCases(a, b)
  {
    forall k: nat | k < 26
      ensures UPPER[k] as nat == 65 + k && SMALL[k] as nat == 97 + k
    {
      AlphabetCodes(k);
    }
    if LowerChar(a) == LowerChar(b) && a != b {
      var k := LowerChar(a) as nat - 97;
      assert (a == UPPER[k] && b == SMALL[k]) || (a == SMALL[k] && b == UPPER[k]);
    }
  }

  /** Names are taken as equal exactly when they differ in nothing but the case
      of ASCII letters. */
  lemma EqIgnoreCaseExactly(a: string, b: string)
    ensures EqIgnoreCase(a, b) <==> |a| == |b| && forall i :: 0 <= i < |a| ==> a[i] == b[i] || TwoCases(a[i], b[i])
  {
    forall c, d
      ensures LowerChar(c) == LowerChar(d) <==> c == d || TwoCases(c, d)
    {
      LowerCharExactly(c, d);
    }
  }

  // ---- Prefixes ------------------------------------------------------------

  function SlashRun(n: nat): string {
    seq(n, i => '/')
  }

  lemma {:induction false} TrimSlashesRun(body: string, n: nat)
    requires body != "" ==> body[|body| - 1] != '/'
    ensures TrimSlashes(body + SlashRun(n)) == body
  {
    if n == 0 {
      assert body + SlashRun(0) == body;
    } else {
      assert (body + SlashRun(n))[..|body| + n - 1] == body + SlashRun(n - 1);
      TrimSlashesRun(body, n - 1);
    }
  }

  lemma {:induction false} TrimSlashesCuts(s: string) returns (n: nat)
    ensures s == TrimSlashes(s) + SlashRun(n)
  {
    n := 0;
    if s != [] && s[|s| - 1] == '/' {
      var m := TrimSlashesCuts(s[..|s| - 1]);
      n := m + 1;
      assert SlashRun(n) == SlashRun(m) + "/";
      assert s == s[..|s| - 1] + "/";
    }
  }

  /** A prefix loses all its trailing slashes, nothing before them, and gains
      one. */
  lemma NormalizedExactly(p: string, s: string)
    ensures s == Normalized(p) <==> exists body, n ::
      Slashes(p) == body + SlashRun(n) && (body != "" ==> body[|body| - 1] != '/') && s == body + "/"
  {
    var n := TrimSlashesCuts(Slashes(p));
    TrimSlashesShape(Slashes(p));
    forall body, m | Slashes(p) == body + SlashRun(m) && (body != "" ==> body[|body| - 1] != '/')
      ensures Normalized(p) == body + "/"
    {
      TrimSlashesRun(body, m);
    }
  }

  /** Prefixes are taken one by one, in order; an empty one is dropped. */
  lemma {:induction false} PrefixesInOrder(a: seq<string>, p: string, b: seq<string>)
    ensures NormalizedAll(a + [p] + b)
         == NormalizedAll(a) + (if p == "" then [] else [Normalized(p)]) + NormalizedAll(b)
    decreases |a|
  {
    var all := a + [p] + b;
    if a == [] {
      assert all[0] == p && all[1..] == b;
    } else {
      assert all[0] == a[0] && all[1..] == a[1..] + [p] + b;
      PrefixesInOrder(a[1..], p, b);
    }
  }

  /** A directory at the front of a glob that no wildcard touches. */
  ghost predicate StaticDirectory(glob: string, dir: string) {
    && StartsWith(Slashes(glob), dir) && (dir != "" ==> dir[|dir| - 1] == '/')
    && '*' !in dir && '?' !in dir && '[' !in dir
  }

  lemma NoWildBefore(s: string, n: nat)
    requires n <= |s| && forall i :: 0 <= i < n ==> !Wild(s[i])
    ensures n <= Cut(s)
  {
  }

  lemma StaticPrefixIsCut(glob: string) returns (n: nat)
    ensures var norm := Slashes(glob);
      && n <= Cut(norm) && GlobStaticPrefix(glob) == norm[..n] && (n > 0 ==> norm[n - 1] == '/')
      && forall j :: n <= j < Cut(norm) ==> norm[j] != '/'
  {
    var norm := Slashes(glob);
    var head := norm[..Cut(norm)];
    var last := LastSlash(head);
    n := if last.Some? then last.value + 1 else 0;
    if last.Some? {
      assert head[..last.value] + "/" == norm[..n];
    }
    assert forall j :: n <= j < Cut(norm) ==> head[j] == norm[j];
  }

  lemma StaticPrefixIsStatic(glob: string)
    ensures StaticDirectory(glob, GlobStaticPrefix(glob))
  {
    var n := StaticPrefixIsCut(glob);
    var dir := GlobStaticPrefix(glob);
    assert forall i :: 0 <= i < n ==> dir[i] == Slashes(glob)[i] && !Wild(Slashes(glob)[i]);
  }

  lemma StaticPrefixIsLongest(glob: string, dir: string)
    requires StaticDirectory(glob, dir)
    ensures StartsWith(GlobStaticPrefix(glob), dir)
  {
    var norm := Slashes(glob);
    var n := StaticPrefixIsCut(glob);
    var k := |dir|;
    assert forall i :: 0 <= i < k ==> norm[i] == dir[i] && dir[i] in dir;
    NoWildBefore(norm, k);
    assert k > 0 ==> norm[k - 1] == '/';
    assert norm[..n][..k] == norm[..k];
  }

  /** The static prefix is the longest such directory. */
  lemma StaticPrefixExactly(glob: string)
    ensures StaticDirectory(glob, GlobStaticPrefix(glob))
    ensures forall dir :: StaticDirectory(glob, dir) ==> StartsWith(GlobStaticPrefix(glob), dir)
  {
    StaticPrefixIsStatic(glob);
    forall dir | StaticDirectory(glob, dir)
      ensures StartsWith(GlobStaticPrefix(glob), dir)
    {
      StaticPrefixIsLongest(glob, dir);
    }
  }

  // ---- The runner's matcher ------------------------------------------------

  /** Leading dots and slashes go, up to the first other character. */
  lemma {:induction false} StripLeadExactly(s: string) returns (lead: string)
    ensures s == lead + StripLead(s) && forall c :: c in lead ==> c == '.' || c == '/'
    ensures StripLead(s) != "" ==> StripLead(s)[0] != '.' && StripLead(s)[0] != '/'
  {
    lead := "";
    if s != [] && (s[0] == '.' || s[0] == '/') {
      var l := StripLeadExactly(s[1..]);
      lead := [s[0]] + l;
      assert s == [s[0]] + s[1..];
    }
  }

  lemma {:induction false} HasDoubleStarExactly(s: string)
    ensures HasDoubleStar(s) <==> exists i :: 0 <= i < |s| - 1 && s[i] == '*' == s[i + 1]
  {
    if s != [] {
      HasDoubleStarExactly(s[1..]);
      assert StartsWith(s, "**") <==> |s| >= 2 && s[0] == '*' == s[1] by {
        if |s| >= 2 {
          assert s[..2] == [s[0], s[1]];
        }
      }
      if i :| 0 <= i < |s| - 1 && s[i] == '*' == s[i + 1] {
        assert i > 0 ==> s[1..][i - 1] == '*' == s[1..][i];
      }
      if i :| 0 <= i < |s| - 2 && s[1..][i] == '*' == s[1..][i + 1] {
        assert s[i + 1] == '*' == s[i + 2];
      }
    }
  }

  // ---- What a glob says ----------------------------------------------------

  /** A star stands for any text. */
  lemma {:induction false} StarMeaning(rest: string, path: string, inClass: (string, char) -> bool)
    ensures GlobMatches("*" + rest, path, inClass) <==>
      exists k: nat :: k <= |path| && GlobMatches(rest, path[k..], inClass)
    decreases |path|
  {
    assert ("*" + rest)[1..] == rest && path[0..] == path;
    if path != [] {
      StarMeaning(rest, path[1..], inClass);
      if k: nat :| k <= |path| - 1 && GlobMatches(rest, path[1..][k..], inClass) {
        assert path[1..][k..] == path[k + 1..];
      }
      if k: nat :| k <= |path| && GlobMatches(rest, path[k..], inClass) {
        assert k > 0 ==> path[1..][k - 1..] == path[k..];
      }
    }
  }

  /** A question mark stands for one character, any other for itself. */
  lemma CharMeaning(c: char, rest: string, path: string, inClass: (string, char) -> bool)
    requires c != '*' && c != '['
    ensures GlobMatches([c] + rest, path, inClass) <==>
      path != "" && (c == '?' || path[0] == c) && GlobMatches(rest, path[1..], inClass)
  {
    assert ([c] + rest)[1..] == rest;
  }

  /** What can stand between the brackets of a class: something, perhaps behind
      an exclamation mark, with no closing bracket but as its first character. */
  ghost predicate ClassBody(body: string) {
    var from := if body != "" && body[0] == '!' then 2 else 1;
    |body| >= from && ']' !in body[from..]
  }

  lemma {:induction false} BracketFound(pattern: string, from: nat, n: nat)
    requires from <= n < |pattern| && pattern[n] == ']' && forall i :: from <= i < n ==> pattern[i] != ']'
    ensures FindBracket(pattern, from) == n
    decreases n - from
  {
    if from < n {
      BracketFound(pattern, from + 1, n);
    }
  }

  /** A class stands for one character, and its text decides which. */
  lemma ClassMeaning(body: string, rest: string, path: string, inClass: (string, char) -> bool)
    requires ClassBody(body)
    ensures GlobMatches("[" + body + "]" + rest, path, inClass) <==>
      path != "" && inClass(body, path[0]) && GlobMatches(rest, path[1..], inClass)
  {
    var pattern, n := "[" + body + "]" + rest, |body| + 1;
    var from := if body[0] == '!' then 3 else 2;
    assert pattern[1] == body[0] && pattern[n] == ']';
    forall i | from <= i < n
      ensures pattern[i] != ']'
    {
      assert pattern[i] == body[i - 1] == body[from - 1..][i - from];
    }
    BracketFound(pattern, from, n);
    assert pattern[1..n] == body && pattern[n + 1..] == rest;
  }

  // ---- The runner's fallback -----------------------------------------------

  /** Behind a star only what the rest matches counts. */
  lemma {:induction false} StarTails(a: string, b: string, path: string, inClass: (string, char) -> bool)
    requires forall q :: GlobMatches(a, q, inClass) <==> GlobMatches(b, q, inClass)
    ensures GlobMatches("*" + a, path, inClass) <==> GlobMatches("*" + b, path, inClass)
    decreases |path|
  {
    assert ("*" + a)[1..] == a && ("*" + b)[1..] == b;
    if path != [] {
      StarTails(a, b, path[1..], inClass);
    }
  }

  lemma {:induction false} TwoStars(rest: string, path: string, inClass: (string, char) -> bool)
    ensures GlobMatches("**" + rest, path, inClass) <==> GlobMatches("*" + rest, path, inClass)
    decreases |path|
  {
    assert ("**" + rest)[1..] == "*" + rest && ("*" + rest)[1..] == rest;
    if path != [] {
      TwoStars(rest, path[1..], inClass);
    }
  }

  /** Collapsing double stars leaves what a glob without brackets matches. */
  lemma {:induction false} CollapseKeepsMatches(pattern: string, path: string, inClass: (string, char) -> bool)
    requires '[' !in pattern
    ensures GlobMatches(Collapse(pattern), path, inClass) <==> GlobMatches(pattern, path, inClass)
    decreases |pattern|
  {
    if pattern != [] {
      var n := if StartsWith(pattern, "**") then 2 else 1;
      var rest := pattern[n..];
      assert forall c :: c in rest ==> c in pattern;
      forall q
        ensures GlobMatches(Collapse(rest), q, inClass) <==> GlobMatches(rest, q, inClass)
      {
        CollapseKeepsMatches(rest, q, inClass);
      }
      if n == 2 {
        assert pattern == "**" + rest;
        TwoStars(rest, path, inClass);
        StarTails(Collapse(rest), rest, path, inClass);
      } else {
        assert pattern == [pattern[0]] + rest && Collapse(pattern) == [pattern[0]] + Collapse(rest);
        if pattern[0] == '*' {
          StarTails(Collapse(rest), rest, path, inClass);
        } else {
          assert pattern[0] in pattern;
          assert Collapse(pattern)[1..] == Collapse(rest);
        }
      }
    }
  }

  /** The fallback for double stars adds nothing to a glob without brackets. */
  lemma FallbackAddsNothing(glob: string, path: string, inClass: (string, char) -> bool)
    requires '[' !in glob
    ensures RunnerMatches(glob, path, inClass) <==> GlobMatches(Slashes(glob), RunnerPath(path), inClass)
  {
    var pattern := Slashes(glob);
    assert forall i :: 0 <= i < |pattern| ==> pattern[i] != '[' by {
      assert forall i :: 0 <= i < |glob| ==> glob[i] in glob;
    }
    CollapseKeepsMatches(pattern, RunnerPath(path), inClass);
  }

  // ---- The documented reading ----------------------------------------------

  ghost predicate NoGlobstarSlash(pattern: string) {
    forall i :: 0 <= i < |pattern| - 2 ==> !(pattern[i] == '*' == pattern[i + 1] && pattern[i + 2] == '/')
  }

  lemma NoGlobstarSlashTail(pattern: string, n: nat)
    requires NoGlobstarSlash(pattern) && n <= |pattern|
    ensures NoGlobstarSlash(pattern[n..])
  {
    var t := pattern[n..];
    forall i | 0 <= i < |t| - 2
      ensures !(t[i] == '*' == t[i + 1] && t[i + 2] == '/')
    {
      assert t[i] == pattern[n + i] && t[i + 1] == pattern[n + i + 1] && t[i + 2] == pattern[n + i + 2];
    }
  }

  lemma NotGlobstarSlash(pattern: string)
    requires NoGlobstarSlash(pattern)
    ensures !StartsWith(pattern, "**/")
  {
    if |pattern| >= 3 {
      assert pattern[..3] == [pattern[0], pattern[1], pattern[2]];
      assert !(pattern[0] == '*' == pattern[0 + 1] && pattern[0 + 2] == '/');
    }
  }

  /** Without a double star and slash, `fnmatch` matches whatever the
      documentation says the glob matches. */
  lemma {:induction false} DocumentedIsMatched(pattern: string, path: string, inClass: (string, char) -> bool)
    requires NoGlobstarSlash(pattern) && GlobstarMatches(pattern, path, inClass)
    ensures GlobMatches(pattern, path, inClass)
    decreases |pattern|, |path|
  {
    if pattern != [] {
      NotGlobstarSlash(pattern);
      DoubleStarIsWild(pattern);
      if StartsWith(pattern, "**") {
        var rest := pattern[2..];
        var k: nat :| k <= |path| && GlobstarMatches(rest, path[k..], inClass);
        NoGlobstarSlashTail(pattern, 2);
        DocumentedIsMatched(rest, path[k..], inClass);
        StarMeaning(rest, path, inClass);
        TwoStars(rest, path, inClass);
        assert pattern == pattern[..2] + rest;
      } else if pattern[0] == '*' {
        if GlobstarMatches(pattern[1..], path, inClass) {
          NoGlobstarSlashTail(pattern, 1);
          DocumentedIsMatched(pattern[1..], path, inClass);
        } else {
          DocumentedIsMatched(pattern, path[1..], inClass);
        }
      } else if pattern[0] == '[' && ClassEnd(pattern) < |pattern| {
        NoGlobstarSlashTail(pattern, ClassEnd(pattern) + 1);
        DocumentedIsMatched(pattern[ClassEnd(pattern) + 1..], path[1..], inClass);
      } else {
        NoGlobstarSlashTail(pattern, 1);
        DocumentedIsMatched(pattern[1..], path[1..], inClass);
      }
    }
  }

  /** With one it may not: the double star may stand for no component, the star
      in its place takes the slash along. And it may match more: a single star
      crosses components. */
  lemma ReadingsDiffer(inClass: (string, char) -> bool)
    ensures GlobstarMatches("**/x", "x", inClass) && !GlobMatches("**/x", "x", inClass)
    ensures GlobMatches("*", "a/b", inClass) && !GlobstarMatches("*", "a/b", inClass)
  {
    ReadingsDifferOnSlash(inClass);
    StarMatchesAll("a/b", inClass);
    var star, path := "*", "a/b";
    assert star[1..] == "" && path[1..] == "/b";
    StartsWithHead(star, "**/");
    assert !GlobstarMatches(star[1..], path, inClass) && !GlobstarMatches(star, path[1..], inClass);
  }

  lemma ReadingsDifferOnSlash(inClass: (string, char) -> bool)
    ensures GlobstarMatches("**/x", "x", inClass) && !GlobMatches("**/x", "x", inClass)
  {
    var g, x := "**/x", "x";
    assert g[..3] == "**/" && g[3..] == x && x[0..] == x && x[1..] == "";
    assert GlobstarMatches("", "", inClass);
    assert GlobstarMatches(x, x, inClass);
    assert g == "**" + "/x" && "*" + "/x" == "*/x";
    TwoStars("/x", x, inClass);
    StarMeaning("/x", x, inClass);
    forall k: nat | k <= |x|
      ensures !GlobMatches("/x", x[k..], inClass)
    {
    }
  }
}
