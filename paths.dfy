/**
 * Directory paths as sequences of components. The watcher compares paths
 * with std::filesystem; here "q is p or lies below p" (the relative path
 * of q to p does not start with "..") is "p is a prefix of q".
 */
module Paths {

  /** An absolute path: its components below "/". */
  type Path = seq<string>

  /** q is p or a descendant of p. */
  predicate Below(p: Path, q: Path) {
    |p| <= |q| && q[..|p|] == p
  }

  /** q is a descendant of p other than p itself. */
  predicate StrictlyBelow(p: Path, q: Path) {
    |p| < |q| && q[..|p|] == p
  }

  lemma BelowTransitive(a: Path, b: Path, c: Path)
    requires Below(a, b) && Below(b, c)
    ensures Below(a, c)
  {
    assert c[..|b|][..|a|] == c[..|a|];
  }

  /** The text of a path relative to a directory: "." for the directory itself. */
  function RelString(rel: Path): string
  {
    if rel == [] then "." else SlashJoin(rel)
  }

  /** Components joined by '/': "a/b/c". */
  function SlashJoin(cs: seq<string>): string
    requires cs != []
  {
    if |cs| == 1 then cs[0] else SlashJoin(cs[..|cs| - 1]) + "/" + cs[|cs| - 1]
  }

  /** The string of an absolute path: "/" for the root, "/a/b" otherwise. */
  function PathString(p: Path): (s: string)
    ensures |s| > 0 && s[0] == '/'
  {
    if p == [] then "/" else if |p| == 1 then "/" + p[0] else PathString(p[..|p| - 1]) + "/" + p[|p| - 1]
  }

  predicate IsStrPrefix(a: string, b: string) {
    |a| <= |b| && b[..|a|] == a
  }

  /** pat occurs in s (std::string::find(pat) != npos). */
  predicate Contains(s: string, pat: string) {
    exists i :: 0 <= i <= |s| - |pat| && OccursAt(s, pat, i)
  }

  predicate OccursAt(s: string, pat: string, i: int) {
    0 <= i <= |s| - |pat| && s[i..i + |pat|] == pat
  }

  /** The string of a directory starts with the string of each of its ancestors. */
  lemma {:induction false} PathStringExtends(p: Path, q: Path)
    requires Below(p, q)
    ensures IsStrPrefix(PathString(p), PathString(q))
  {
    if |q| > |p| {
      var q' := q[..|q| - 1];
      assert q'[..|p|] == p;
      PathStringExtends(p, q');
      if |q| == 1 {
        assert p == [];
      }
    } else {
      assert p == q;
    }
  }

  lemma ContainsExtends(s: string, t: string, pat: string)
    requires Contains(s, pat) && IsStrPrefix(s, t)
    ensures Contains(t, pat)
  {
    var i :| 0 <= i <= |s| - |pat| && OccursAt(s, pat, i);
    assert t[..|s|] == s;
    assert t[i..i + |pat|] == s[i..i + |pat|];
    assert OccursAt(t, pat, i);
  }

  /** A pattern found in a directory's string is found in every descendant's. */
  lemma PatternInherited(p: Path, q: Path, pat: string)
    requires Below(p, q) && Contains(PathString(p), pat)
    ensures Contains(PathString(q), pat)
  {
    PathStringExtends(p, q);
    ContainsExtends(PathString(p), PathString(q), pat);
  }
}
