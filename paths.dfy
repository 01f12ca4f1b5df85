/** POSIX paths in the form Node's `path.resolve` returns them, and
    `path.join` of such a directory with a single file name. */
module Paths {

  predicate IsAbsolute(p: string) {
    |p| > 0 && p[0] == '/'
  }

  /** A path as `path.resolve` returns it: absolute, and ending in '/' only
      when it is the root directory itself. */
  predicate IsResolved(p: string) {
    IsAbsolute(p) && (p[|p| - 1] == '/' ==> p == "/")
  }

  /** One path segment that `path.join` leaves as it is. */
  predicate IsName(n: string) {
    |n| > 0 && '/' !in n && n != "." && n != ".."
  }

  /** `path.join(dir, name)`: the root directory already ends in the
      separator; every other resolved directory gets one. */
  function Join(dir: string, name: string): (p: string)
    requires IsResolved(dir) && IsName(name)
    ensures IsResolved(p) && p != "/"
    ensures |p| > |name| && p[|p| - |name|..] == name && p[|p| - |name| - 1] == '/'
  {
    if dir == "/" then dir + name else dir + "/" + name
  }

  /** Index of the last '/' in p, or -1 when there is none. */
  function LastSlash(p: string): (i: int)
    ensures -1 <= i < |p|
    ensures i >= 0 ==> p[i] == '/'
    ensures forall j :: i < j < |p| ==> p[j] != '/'
  {
    if |p| == 0 then -1
    else if p[|p| - 1] == '/' then |p| - 1
    else LastSlash(p[..|p| - 1])
  }

  /** `path.basename(p)` for a path that does not end in '/'. */
  function Basename(p: string): string {
    p[LastSlash(p) + 1..]
  }

  /** `path.dirname(p)` for a path without repeated or trailing separators. */
  function Dirname(p: string): string {
    var i := LastSlash(p);
    if i < 0 then "." else if i == 0 then "/" else p[..i]
  }

  /** Join is undone by Dirname and Basename: the joined path names the
      directory and the file it was built from, and nothing else. */
  lemma JoinSplits(dir: string, name: string)
    requires IsResolved(dir) && IsName(name)
    ensures Dirname(Join(dir, name)) == dir
    ensures Basename(Join(dir, name)) == name
  {
    var p := Join(dir, name);
    var k := |p| - |name| - 1;
    assert LastSlash(p) == k;
  }

  /** Distinct names in one directory give distinct paths. */
  lemma JoinInjective(dir: string, a: string, b: string)
    requires IsResolved(dir) && IsName(a) && IsName(b)
    ensures Join(dir, a) == Join(dir, b) ==> a == b
  {
    JoinSplits(dir, a);
    JoinSplits(dir, b);
  }
}
