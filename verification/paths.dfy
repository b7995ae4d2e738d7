/**
 The two POSIX path helpers the program relies on: `os.path.basename`, the
 part after the last '/', and `os.path.splitext`, which splits a path at its
 last '.' unless that dot belongs to the leading dots of the last path
 component (so ".pdf" and "..pdf" have no extension).
 */
module Paths {

  /** Index of the last `c` in `s`, or -1 (Python's `s.rfind(c)`). */
  function LastIndex(s: string, c: char): (i: int)
    ensures -1 <= i < |s|
    ensures i >= 0 ==> s[i] == c
    ensures forall j :: i < j < |s| ==> s[j] != c
  {
    if |s| == 0 then -1
    else if s[|s| - 1] == c then |s| - 1
    else LastIndex(s[..|s| - 1], c)
  }

  /** The last `c` of `a + [c] + b` is the one after `a` when `b` has none. */
  lemma {:induction false} LastIndexBefore(a: string, c: char, b: string)
    requires c !in b
    ensures LastIndex(a + [c] + b, c) == |a|
  {
    var s := a + [c] + b;
    if |b| > 0 {
      assert s[|s| - 1] == b[|b| - 1];
      assert s[..|s| - 1] == a + [c] + b[..|b| - 1];
      LastIndexBefore(a, c, b[..|b| - 1]);
    }
  }

  /** Some character of `s` is not a dot. */
  predicate HasNonDot(s: string) {
    exists k :: 0 <= k < |s| && s[k] != '.'
  }

  /** The last path component. */
  function Basename(p: string): (b: string)
    ensures '/' !in b
    ensures |b| <= |p| && p[|p| - |b|..] == b
    ensures '/' !in p ==> b == p
    ensures '/' in p ==> |b| < |p| && p[|p| - |b| - 1] == '/'
  {
    p[LastIndex(p, '/') + 1..]
  }

  /** `os.path.join(a, b)` for two components: `b` alone when it is absolute, otherwise joined by one slash. */
  function PathJoin(a: string, b: string): string
  {
    if |b| > 0 && b[0] == '/' then b
    else if |a| == 0 || a[|a| - 1] == '/' then a + b
    else a + "/" + b
  }

  /** The basename of a folder joined with a slash-free entry is the entry. */
  lemma BasenameJoin(folder: string, entry: string)
    requires '/' !in entry
    ensures Basename(PathJoin(folder, entry)) == entry
  {
    var p := PathJoin(folder, entry);
    if |folder| == 0 {
      assert p == entry;
    } else if folder[|folder| - 1] == '/' {
      LastIndexBefore(folder[..|folder| - 1], '/', entry);
      assert p == folder[..|folder| - 1] + ['/'] + entry;
    } else {
      LastIndexBefore(folder, '/', entry);
    }
  }

  /** A dot followed by neither dot nor slash, or nothing. */
  predicate IsExtension(e: string) {
    e == [] || (e[0] == '.' && '.' !in e[1..] && '/' !in e)
  }

  /** Where `os.path.splitext` cuts `p`: its last dot, or -1 when that dot is absent, lies before the last slash, or only has dots before it in the last component. */
  function ExtensionStart(p: string): (k: int)
    ensures k == -1 || (0 <= k < |p| && IsExtension(p[k..]))
  {
    var sepIndex := LastIndex(p, '/');
    var dotIndex := LastIndex(p, '.');
    if dotIndex > sepIndex && HasNonDot(p[sepIndex + 1..dotIndex]) then
      ExtensionShape(p, sepIndex, dotIndex);
      dotIndex
    else
      -1
  }

  lemma ExtensionShape(p: string, sepIndex: int, dotIndex: int)
    requires -1 <= sepIndex < dotIndex < |p| && p[dotIndex] == '.'
    requires forall j :: sepIndex < j < |p| ==> p[j] != '/'
    requires forall j :: dotIndex < j < |p| ==> p[j] != '.'
    ensures IsExtension(p[dotIndex..])
  {
  }

  /** `(root, ext)` with `root + ext == p`, as `os.path.splitext` returns them. */
  function SplitExt(p: string): (r: (string, string))
    ensures r.0 + r.1 == p
    ensures IsExtension(r.1)
  {
    var k := ExtensionStart(p);
    if k == -1 then (p, "")
    else
      assert p == p[..k] + p[k..];
      (p[..k], p[k..])
  }

  /** A slash-free root with a non-dot character, followed by a dot and a dot- and slash-free suffix, splits there. */
  lemma SplitExtOf(root: string, suffix: string)
    requires '/' !in root && HasNonDot(root)
    requires '.' !in suffix && '/' !in suffix
    ensures SplitExt(root + "." + suffix) == (root, "." + suffix)
  {
    var p := root + "." + suffix;
    assert '/' !in p;
    var sepIndex := LastIndex(p, '/');
    assert sepIndex == -1;
    var dotIndex := LastIndex(p, '.');
    assert p[|root|] == '.';
    assert forall j :: |root| < j < |p| ==> p[j] == suffix[j - |root| - 1];
    assert dotIndex == |root|;
    assert p[sepIndex + 1..dotIndex] == root;
    assert ExtensionStart(p) == |root|;
    assert p[..|root|] == root && p[|root|..] == "." + suffix;
  }

  /** Some dot of `p` has a non-dot character before it. */
  predicate DotAfterNonDot(p: string) {
    exists i, j :: 0 <= i < j < |p| && p[i] != '.' && p[j] == '.'
  }

  /**
   A slash-free name has an extension exactly when some dot follows a
   non-dot character; the extension then starts at the last dot. Names
   without a dot, or whose dots are all leading (".pdf", "..pdf"), have none.
   */
  lemma ExtensionOfName(p: string)
    requires '/' !in p
    ensures SplitExt(p).1 == [] <==> !DotAfterNonDot(p)
    ensures DotAfterNonDot(p) ==>
      var d := LastIndex(p, '.');
      0 <= d && SplitExt(p) == (p[..d], p[d..])
  {
    if DotAfterNonDot(p) {
      ExtensionAtLastDot(p);
    } else {
      NoExtension(p);
    }
  }

  lemma ExtensionAtLastDot(p: string)
    requires '/' !in p && DotAfterNonDot(p)
    ensures 0 <= LastIndex(p, '.')
    ensures SplitExt(p) == (p[..LastIndex(p, '.')], p[LastIndex(p, '.')..])
  {
    var d := LastIndex(p, '.');
    assert 0 <= d && HasNonDot(p[0..d]) by {
      var i, j :| 0 <= i < j < |p| && p[i] != '.' && p[j] == '.';
      assert j <= d;
      assert p[..d][i] == p[i];
    }
    assert ExtensionStart(p) == d by {
      assert LastIndex(p, '/') == -1;
    }
  }

  /** The extension of a name with a dot after a non-dot is the last dot and what follows it. */
  lemma ExtensionAfterLastDot(p: string)
    requires '/' !in p && DotAfterNonDot(p)
    ensures SplitExt(p).1 == "." + p[LastIndex(p, '.') + 1..]
  {
    ExtensionAtLastDot(p);
    DropFirst(p, LastIndex(p, '.'));
  }

  lemma DropFirst(s: string, k: int)
    requires 0 <= k < |s|
    ensures s[k..] == [s[k]] + s[k + 1..]
  {
  }

  lemma NoExtension(p: string)
    requires '/' !in p && !DotAfterNonDot(p)
    ensures SplitExt(p).1 == []
  {
    assert LastIndex(p, '/') == -1;
    var d := LastIndex(p, '.');
    if d >= 0 {
      assert !HasNonDot(p[0..d]) by {
        assert forall k :: 0 <= k < d ==> p[..d][k] == p[k];
      }
    }
    assert ExtensionStart(p) == -1;
  }
}
