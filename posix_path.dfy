/**
 * The three path functions the converter uses, as CPython's `posixpath`
 * defines them on '/'-separated strings: `basename`, `dirname` and a
 * two-argument `join`.
 */
module PosixPath {

  /** `p.rfind('/') + 1`: the length of the head of `p`, up to and including its last '/'. */
  function HeadLength(p: string): (n: nat)
    ensures n <= |p|
  {
    if p == [] then 0
    else if p[|p| - 1] == '/' then |p|
    else HeadLength(p[..|p| - 1])
  }

  /** The head ends with the last '/' of the path: there is a '/' just before it and none after it. */
  lemma {:induction false} HeadLengthSpec(p: string)
    ensures HeadLength(p) > 0 ==> p[HeadLength(p) - 1] == '/'
    ensures forall i :: HeadLength(p) <= i < |p| ==> p[i] != '/'
  {
    if p != [] && p[|p| - 1] != '/' {
      HeadLengthSpec(p[..|p| - 1]);
    }
  }

  /** The head length is the only split point with a '/' before it and none after it. */
  lemma {:induction false} HeadLengthUnique(p: string, n: nat)
    requires n <= |p|
    requires n > 0 ==> p[n - 1] == '/'
    requires forall i :: n <= i < |p| ==> p[i] != '/'
    ensures HeadLength(p) == n
  {
    if p != [] && p[|p| - 1] != '/' {
      HeadLengthUnique(p[..|p| - 1], n);
    }
  }

  /** `os.path.basename(p)`: everything after the last '/'. */
  function Basename(p: string): string
  {
    p[HeadLength(p)..]
  }

  /** A path is its head (empty, or ending in '/') followed by its basename, which has no '/'. */
  lemma BasenameSplit(p: string)
    ensures p == p[..HeadLength(p)] + Basename(p)
    ensures HeadLength(p) == 0 || p[HeadLength(p) - 1] == '/'
    ensures '/' !in Basename(p)
  {
    HeadLengthSpec(p);
  }

  predicate AllSlashes(s: string)
  {
    forall i :: 0 <= i < |s| ==> s[i] == '/'
  }

  /** `s.rstrip('/')`. */
  function RStripSlashes(s: string): string
  {
    if s != [] && s[|s| - 1] == '/' then RStripSlashes(s[..|s| - 1]) else s
  }

  /** Stripping leaves a prefix that does not end in '/', followed in `s` by slashes only. */
  lemma {:induction false} RStripSlashesSpec(s: string)
    ensures |RStripSlashes(s)| <= |s| && RStripSlashes(s) == s[..|RStripSlashes(s)|]
    ensures RStripSlashes(s) == [] || RStripSlashes(s)[|RStripSlashes(s)| - 1] != '/'
    ensures forall i :: |RStripSlashes(s)| <= i < |s| ==> s[i] == '/'
  {
    if s != [] && s[|s| - 1] == '/' {
      RStripSlashesSpec(s[..|s| - 1]);
    }
  }

  /**
   * `os.path.dirname(p)`: the head of `p` with its trailing slashes removed,
   * unless the head consists of slashes only (the root stays "/", "//", ...).
   */
  function Dirname(p: string): string
  {
    var head := p[..HeadLength(p)];
    if head != [] && !AllSlashes(head) then RStripSlashes(head) else head
  }

  /**
   * The dirname is a prefix of the path; it is empty exactly when the path
   * has no '/', and it ends in '/' only when it is all slashes.
   */
  lemma DirnameSpec(p: string)
    ensures |Dirname(p)| <= |p| && Dirname(p) == p[..|Dirname(p)|]
    ensures Dirname(p) == [] <==> '/' !in p
    ensures Dirname(p) == [] || Dirname(p)[|Dirname(p)| - 1] != '/' || AllSlashes(Dirname(p))
  {
    var head := p[..HeadLength(p)];
    HeadLengthSpec(p);
    RStripSlashesSpec(head);
    if '/' in p {
      var i :| 0 <= i < |p| && p[i] == '/';
      assert head != [];
    }
    if head != [] && !AllSlashes(head) {
      var r := RStripSlashes(head);
      assert r == head[..|r|];
      assert r == p[..|r|];
    }
  }

  /**
   * `os.path.join(a, b)`: an absolute `b` replaces `a`; otherwise a '/' is
   * inserted unless `a` is empty or already ends with one.
   */
  function Join(a: string, b: string): string
  {
    if |b| > 0 && b[0] == '/' then b
    else if a == [] || a[|a| - 1] == '/' then a + b
    else a + "/" + b
  }

  /** A joined path ends with its second component and, unless that is absolute, starts with its first. */
  lemma JoinSpec(a: string, b: string)
    ensures |Join(a, b)| >= |b| && Join(a, b)[|Join(a, b)| - |b|..] == b
    ensures (b == [] || b[0] != '/') ==> a <= Join(a, b)
    ensures b != [] && b[0] == '/' ==> Join(a, b) == b
  {
  }

  /** The last component of a joined path is the component that was joined. */
  lemma BasenameOfJoin(a: string, b: string)
    requires b != [] && '/' !in b
    ensures Basename(Join(a, b)) == b
  {
    if a == [] || a[|a| - 1] == '/' {
      HeadOfSplit(a, b);
    } else {
      HeadOfSplit(a + "/", b);
      assert Join(a, b) == (a + "/") + b;
    }
  }

  /** Splitting after a '/' (or at the start) in front of a name without '/' is the basename split. */
  lemma HeadOfSplit(h: string, b: string)
    requires h == [] || h[|h| - 1] == '/'
    requires '/' !in b
    ensures HeadLength(h + b) == |h|
    ensures Basename(h + b) == b
  {
    var r := h + b;
    forall i | |h| <= i < |r| ensures r[i] != '/' {
      assert r[i] == b[i - |h|];
    }
    HeadLengthUnique(r, |h|);
    assert r[|h|..] == b;
  }

  /** Joining a directory that does not end in '/' with a plain name and taking the dirname gives the directory back. */
  lemma DirnameOfJoin(a: string, b: string)
    requires a != [] && a[|a| - 1] != '/'
    requires '/' !in b
    ensures Dirname(Join(a, b)) == a
  {
    var r := Join(a, b);
    assert r == (a + "/") + b;
    HeadOfSplit(a + "/", b);
    var n := HeadLength(r);
    var head := r[..n];
    assert head == a + "/";
    assert !AllSlashes(head) by {
      assert head[|a| - 1] == a[|a| - 1];
    }
    assert head[..|head| - 1] == a;
    assert RStripSlashes(head) == RStripSlashes(a);
  }

  /**
   * `join(dirname(p), basename(p)) == p` for every path whose last '/' is
   * not doubled (a doubled separator is collapsed by dirname).
   */
  lemma JoinDirnameBasename(p: string)
    requires HeadLength(p) < 2 || p[HeadLength(p) - 2] != '/'
    ensures Join(Dirname(p), Basename(p)) == p
  {
    var n := HeadLength(p);
    var base := Basename(p);
    BasenameSplit(p);
    if n == 0 {
      assert p == base;
    } else if n == 1 {
      assert p[..n] == "/";
      assert AllSlashes(p[..n]);
      assert Dirname(p) == "/";
      assert p == "/" + base;
    } else {
      var d := p[..n - 1];
      assert d[|d| - 1] != '/';
      assert p == d + "/" + base;
      DirnameOfJoin(d, base);
      assert Join(d, base) == p;
    }
  }

  /** A legacy attachment path `/lib/X/Y/Title-abc.pdf`: the directory that names the item is the file's parent, "Y". */
  lemma LegacyDirectoryExample()
    ensures Basename(Dirname("/lib/X/Y/Title-abc.pdf")) == "Y"
  {
    assert "/lib/X/Y/Title-abc.pdf" == Join("/lib/X/Y", "Title-abc.pdf");
    DirnameOfJoin("/lib/X/Y", "Title-abc.pdf");
    assert "/lib/X/Y" == Join("/lib/X", "Y");
    BasenameOfJoin("/lib/X", "Y");
  }
}
