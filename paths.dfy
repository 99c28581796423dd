/** The three POSIX path helpers the filesystem applies to the paths it is
    given: basename, dirname and join, as Python's posixpath defines them. */
module Paths {

  /** Index of the last '/' in s, or -1 when there is none (str.rfind). */
  function LastSlash(s: string): (r: int)
    ensures -1 <= r < |s|
    ensures r >= 0 ==> s[r] == '/'
    ensures forall k :: r < k < |s| ==> s[k] != '/'
  {
    if s == [] then -1
    else if s[|s| - 1] == '/' then |s| - 1
    else LastSlash(s[..|s| - 1])
  }

  /** basename: the part after the last '/', which is the longest suffix of
      the path without a '/'. */
  function Basename(p: string): (r: string)
    ensures '/' !in r
  {
    p[LastSlash(p) + 1..]
  }

  /** The name is a suffix of the path, and unless it is the whole path a
      '/' comes right before it. */
  lemma {:induction false} BasenameSuffix(p: string)
    ensures |Basename(p)| <= |p| && p[|p| - |Basename(p)|..] == Basename(p)
    ensures |Basename(p)| < |p| ==> p[|p| - |Basename(p)| - 1] == '/'
  {
    var l := LastSlash(p);
    assert |p| - |Basename(p)| == l + 1;
  }

  predicate AllSlashes(s: string) {
    forall k :: 0 <= k < |s| ==> s[k] == '/'
  }

  /** str.rstrip('/'). */
  function StripTrailingSlashes(s: string): (r: string)
    ensures |r| <= |s| && s[..|r|] == r
    ensures r == [] || r[|r| - 1] != '/'
    ensures AllSlashes(s[|r|..])
  {
    if s != [] && s[|s| - 1] == '/' then
      var r := StripTrailingSlashes(s[..|s| - 1]);
      assert s[|r|..] == s[..|s| - 1][|r|..] + ['/'];
      r
    else s
  }

  /** dirname: everything up to and including the last '/', with the
      trailing slashes removed unless nothing but slashes is left. */
  function Dirname(p: string): string {
    var head := p[..LastSlash(p) + 1];
    if head != [] && !AllSlashes(head) then StripTrailingSlashes(head) else head
  }

  /** join(a, b): b itself when it is absolute; otherwise b appended to a,
      with a '/' between them unless a is empty or already ends in one. */
  function Join(a: string, b: string): string {
    if b != [] && b[0] == '/' then b
    else if a == [] || a[|a| - 1] == '/' then a + b
    else a + "/" + b
  }

  /** LastSlash is the only index with its three properties. */
  lemma {:induction false} LastSlashUnique(s: string, r: int)
    requires -1 <= r < |s| && (r >= 0 ==> s[r] == '/')
    requires forall k :: r < k < |s| ==> s[k] != '/'
    ensures LastSlash(s) == r
  {
  }

  lemma {:induction false} LastSlashAppend(x: string, y: string)
    ensures LastSlash(x + y) == if LastSlash(y) >= 0 then |x| + LastSlash(y) else LastSlash(x)
  {
    var ly, lx := LastSlash(y), LastSlash(x);
    var r := if ly >= 0 then |x| + ly else lx;
    forall k | r < k < |x + y| ensures (x + y)[k] != '/' {
      if k >= |x| { assert (x + y)[k] == y[k - |x|]; } else { assert (x + y)[k] == x[k]; }
    }
    if ly >= 0 { assert (x + y)[r] == y[ly]; }
    else if lx >= 0 { assert (x + y)[r] == x[lx]; }
    LastSlashUnique(x + y, r);
  }

  lemma {:induction false} DropPrefix(x: string, b: string, k: nat)
    requires k <= |b|
    ensures (x + b)[|x| + k..] == b[k..]
  {
  }

  lemma {:induction false} BasenameAfterSeparator(x: string, b: string)
    requires x == [] || x[|x| - 1] == '/'
    ensures Basename(x + b) == Basename(b)
  {
    LastSlashAppend(x, b);
    LastSlashUnique(x, |x| - 1);
    var l := LastSlash(b);
    DropPrefix(x, b, l + 1);
    assert LastSlash(x + b) == |x| + l;
    calc {
      Basename(x + b);
      (x + b)[|x| + l + 1..];
      b[l + 1..];
      Basename(b);
    }
  }

  /** The name of a joined path is the name of its second part. */
  lemma {:induction false} BasenameOfJoin(a: string, b: string)
    ensures Basename(Join(a, b)) == Basename(b)
  {
    if b != [] && b[0] == '/' {
    } else if a == [] || a[|a| - 1] == '/' {
      BasenameAfterSeparator(a, b);
    } else {
      assert Join(a, b) == (a + "/") + b;
      BasenameAfterSeparator(a + "/", b);
    }
  }

  /** A character other than '/' that neither part holds is not in the
      joined path. */
  lemma {:induction false} JoinAvoids(a: string, b: string, c: char)
    requires c != '/' && c !in a && c !in b
    ensures c !in Join(a, b)
  {
    var j := Join(a, b);
    forall k | 0 <= k < |j| ensures j[k] != c {
      if b != [] && b[0] == '/' {
        assert j[k] in b;
      } else if a == [] || a[|a| - 1] == '/' {
        if k < |a| { assert j[k] == a[k]; } else { assert j[k] == b[k - |a|]; }
      } else {
        if k < |a| { assert j[k] == a[k]; }
        else if k > |a| { assert j[k] == b[k - |a| - 1]; }
      }
    }
  }

  /** A name appended to a directory path that does not end in '/' is
      recovered by basename, and the directory by dirname. */
  lemma {:induction false} ChildPath(dir: string, name: string)
    requires dir != [] && dir[|dir| - 1] != '/' && '/' !in name
    ensures Basename(dir + "/" + name) == name
    ensures Dirname(dir + "/" + name) == dir
  {
    var p := dir + "/" + name;
    assert p == (dir + "/") + name;
    LastSlashAppend(dir + "/", name);
    assert LastSlash(dir + "/") == |dir|;
    assert p[..|dir| + 1] == dir + "/";
    assert !AllSlashes(dir + "/") by { assert (dir + "/")[|dir| - 1] == dir[|dir| - 1]; }
    assert (dir + "/")[..|dir|] == dir;
    assert StripTrailingSlashes(dir + "/") == StripTrailingSlashes(dir);
    assert StripTrailingSlashes(dir) == dir;
  }
}
