/** String rules used by the decompress screen: the parent of a path, the
    last segment of a path, the archive's base name and an entry's output
    path. Paths are strings of characters separated by '/'. */
module Paths {

  /** Index of the last occurrence of `c` among the first `n` characters of
      `s`, or -1 when there is none. */
  function LastIndexBefore(s: string, c: char, n: nat): (k: int)
    requires n <= |s|
    ensures -1 <= k < n
    ensures k >= 0 ==> s[k] == c
    ensures forall j :: k < j < n ==> s[j] != c
    decreases n
  {
    if n == 0 then -1
    else if s[n - 1] == c then n - 1
    else LastIndexBefore(s, c, n - 1)
  }

  /** Index of the last occurrence of `c` in `s`, or -1 when `c` does not occur
      (Kotlin's `lastIndexOf`). */
  function LastIndexOf(s: string, c: char): (k: int)
    ensures -1 <= k < |s|
    ensures k == -1 <==> c !in s
    ensures k >= 0 ==> s[k] == c
    ensures forall j :: k < j < |s| ==> s[j] != c
  {
    LastIndexBefore(s, c, |s|)
  }

  /** The last path segment: everything after the last '/', or the whole path
      when it has no '/' (the commons helper `getFilenameFromPath`). */
  function FileName(p: string): (r: string)
    ensures '/' !in r
    ensures |r| <= |p|
    decreases |p|
  {
    if p == [] || p[|p| - 1] == '/' then []
    else FileName(p[..|p| - 1]) + [p[|p| - 1]]
  }

  /** The last segment is what follows the last '/'. */
  lemma {:induction false} FileNameAfterLastSlash(p: string)
    ensures FileName(p) == p[LastIndexOf(p, '/') + 1..]
    decreases |p|
  {
    if p != [] && p[|p| - 1] != '/' {
      var init := p[..|p| - 1];
      FileNameAfterLastSlash(init);
      assert LastIndexOf(p, '/') == LastIndexOf(init, '/');
      assert p[LastIndexOf(p, '/') + 1..] == init[LastIndexOf(init, '/') + 1..] + [p[|p| - 1]];
    }
  }

  /** The parent of a path: the prefix before the last '/', or "" when the
      path has no '/'. Used both to filter the listing and to go back. */
  function ParentPath(p: string): (r: string)
    ensures '/' !in p ==> r == ""
    ensures '/' in p ==> r + "/" + FileName(p) == p
    ensures p != "" ==> |r| < |p|
  {
    var k := LastIndexOf(p, '/');
    if k < 0 then "" else
      FileNameAfterLastSlash(p);
      assert p == p[..k] + "/" + p[k + 1..];
      p[..k]
  }

  /** Kotlin's `removeSuffix("/")`: drops one trailing '/', if present. */
  function RemoveSlashSuffix(name: string): string
  {
    if |name| > 0 && name[|name| - 1] == '/' then name[..|name| - 1] else name
  }

  /** A string made only of '/' characters (possibly empty). */
  predicate AllSlashes(s: string) {
    forall i :: 0 <= i < |s| ==> s[i] == '/'
  }

  /** Kotlin's `trimEnd('/')`: drops every trailing '/'. */
  function TrimTrailingSlashes(name: string): (r: string)
    ensures |r| <= |name| && name[..|r|] == r
    ensures AllSlashes(name[|r|..])
    ensures r == [] || r[|r| - 1] != '/'
  {
    if |name| > 0 && name[|name| - 1] == '/' then TrimTrailingSlashes(name[..|name| - 1])
    else name
  }

  /** Kotlin's `substringBeforeLast(".")`: the title up to its last '.', or the
      whole title when it has no '.'. */
  function BaseName(title: string): (r: string)
    ensures '.' !in title ==> r == title
    ensures '.' in title ==> exists ext :: '.' !in ext && r + "." + ext == title
  {
    var k := LastIndexOf(title, '.');
    if k < 0 then title else
      var ext := title[k + 1..];
      assert '.' !in ext by {
        forall i | 0 <= i < |ext| ensures ext[i] != '.' { assert ext[i] == title[k + 1 + i]; }
      }
      assert title[..k] + "." + ext == title;
      title[..k]
  }

  /** The folder every entry is extracted under: `destination/baseName`. */
  function RootFolder(destination: string, title: string): string {
    destination + "/" + BaseName(title)
  }

  /** The output path of an entry: the root folder, '/', and the entry name with
      all trailing '/' trimmed. */
  function OutputPath(destination: string, title: string, entryName: string): string {
    RootFolder(destination, title) + "/" + TrimTrailingSlashes(entryName)
  }

  /** Number of occurrences of `c` in `s`. */
  function Occurrences(s: string, c: char): nat {
    if s == [] then 0 else Occurrences(s[..|s| - 1], c) + (if s[|s| - 1] == c then 1 else 0)
  }

  lemma {:induction false} OccurrencesAppend(a: string, b: string, c: char)
    ensures Occurrences(a + b, c) == Occurrences(a, c) + Occurrences(b, c)
    decreases |b|
  {
    if b == [] {
      assert a + b == a;
    } else {
      assert (a + b)[..|a + b| - 1] == a + b[..|b| - 1];
      OccurrencesAppend(a, b[..|b| - 1], c);
    }
  }

  lemma {:induction false} OccurrencesAbsent(s: string, c: char)
    requires c !in s
    ensures Occurrences(s, c) == 0
    decreases |s|
  {
    if s != [] {
      assert c !in s[..|s| - 1];
      OccurrencesAbsent(s[..|s| - 1], c);
    }
  }

  /** One back step removes exactly one '/' from a path that has one. */
  lemma ParentDropsOneSlash(p: string)
    requires '/' in p
    ensures Occurrences(ParentPath(p), '/') + 1 == Occurrences(p, '/')
  {
    var q, f := ParentPath(p), FileName(p);
    OccurrencesAppend(q + "/", f, '/');
    OccurrencesAppend(q, "/", '/');
    OccurrencesAbsent(f, '/');
    assert Occurrences("/", '/') == 1 by { assert "/"[..0] == ""; }
  }

  /** The output path lies under the root folder and, once the trailing '/'
      of the entry name that were trimmed are put back, is exactly
      `root/entryName`: nothing else of the name is changed (in particular no
      `..` segment is resolved or rejected). */
  lemma OutputPathShape(destination: string, title: string, entryName: string)
    ensures var root := RootFolder(destination, title);
      var out := OutputPath(destination, title, entryName);
      && |out| > |root| && out[..|root| + 1] == root + "/"
      && exists slashes :: AllSlashes(slashes) && out + slashes == root + "/" + entryName
  {
    var root := RootFolder(destination, title);
    var t := TrimTrailingSlashes(entryName);
    var slashes := entryName[|t|..];
    assert entryName == t + slashes;
    assert OutputPath(destination, title, entryName) + slashes == root + "/" + entryName;
  }

  /** Listing drops one trailing '/', extraction drops them all. */
  lemma SlashRulesDiffer()
    ensures RemoveSlashSuffix("a//") == "a/"
    ensures TrimTrailingSlashes("a//") == "a"
  {
    assert "a//"[..2] == "a/";
    assert "a/"[..1] == "a";
  }

  /** The entry "../../etc/passwd" is placed at `root/../../etc/passwd`. */
  lemma NoTraversalCheck(destination: string, title: string)
    ensures OutputPath(destination, title, "../../etc/passwd")
         == RootFolder(destination, title) + "/../../etc/passwd"
  {
  }

  /** The path reached from `p` after `n` back steps (stopping at ""). */
  function BackFrom(p: string, n: nat): string
    decreases n
  {
    if n == 0 || p == "" then p else BackFrom(ParentPath(p), n - 1)
  }

  /** How many back steps lead from `p` to the root "". */
  function BackSteps(p: string): nat
    decreases |p|
  {
    if p == "" then 0 else 1 + BackSteps(ParentPath(p))
  }

  /** Repeated back steps reach "" after exactly `BackSteps(p)` steps... */
  lemma {:induction false} BackReachesRoot(p: string)
    ensures BackFrom(p, BackSteps(p)) == ""
    decreases |p|
  {
    if p != "" {
      BackReachesRoot(ParentPath(p));
    }
  }

  /** ...and not before. */
  lemma {:induction false} BackNotBefore(p: string, n: nat)
    requires n < BackSteps(p)
    ensures BackFrom(p, n) != ""
    decreases n
  {
    if n > 0 {
      BackNotBefore(ParentPath(p), n - 1);
    }
  }

  /** A path needs at most one back step per '/' plus one; for a path that
      does not start with '/' (every listed item's path) exactly that many. */
  lemma {:induction false} BackStepsCount(p: string)
    requires p != ""
    ensures BackSteps(p) <= Occurrences(p, '/') + 1
    ensures p[0] != '/' ==> BackSteps(p) == Occurrences(p, '/') + 1
    decreases |p|
  {
    var q := ParentPath(p);
    if '/' in p {
      ParentDropsOneSlash(p);
      if q != "" {
        BackStepsCount(q);
        if p[0] != '/' {
          assert p == q + "/" + FileName(p);
          assert q[0] == p[0];
        }
      }
    } else {
      OccurrencesAbsent(p, '/');
    }
  }
}
