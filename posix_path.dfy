/**
 * `os.path.join` of two components on a POSIX system (`posixpath.join`).
 */
module PosixPath {
  import PyStr

  predicate IsAbsolute(p: string)
  {
    |p| > 0 && p[0] == '/'
  }

  /**
   * `posixpath.join(a, b)`: an absolute `b` replaces `a`; otherwise `b` is
   * appended to `a`, with a `/` in between unless `a` is empty or already
   * ends in one.
   */
  function Join(a: string, b: string): (r: string)
    ensures PyStr.EndsWith(r, b)
    ensures !IsAbsolute(b) ==> |a| <= |r| - |b| <= |a| + 1 && r[..|a|] == a
    ensures !IsAbsolute(b) && a != [] ==> r[|r| - |b| - 1] == '/'
    ensures !IsAbsolute(b) ==> (|r| == |a| + |b| <==> a == [] || a[|a| - 1] == '/')
    ensures IsAbsolute(b) ==> r == b
  {
    if IsAbsolute(b) then b
    else if a == [] || a[|a| - 1] == '/' then a + b
    else a + "/" + b
  }

  /**
   * The last component of a joined path is the name that was joined, for any
   * name `os.listdir` can return (non-empty, without `/`).
   */
  lemma JoinBasename(a: string, name: string)
    requires name != [] && '/' !in name
    ensures PyStr.Basename(Join(a, name)) == name
  {
  }
}
