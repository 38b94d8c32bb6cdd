/** `os.path.join` as POSIX Python defines it (`posixpath.join`), for two
    components; more components are folded left to right. */
module PyPath {

  predicate IsAbsolute(p: string)
  {
    p != [] && p[0] == '/'
  }

  /** An absolute second component replaces the first; otherwise a `/` is put
      between them unless the first is empty or already ends with `/`. */
  function PathJoin(a: string, b: string): (p: string)
    ensures |b| <= |p| && p[|p| - |b|..] == b
  {
    if IsAbsolute(b) then b
    else if a == [] || a[|a| - 1] == '/' then a + b
    else a + "/" + b
  }

  /** A relative component ends the joined path, after a directory prefix
      that depends on `a` alone. */
  lemma PathJoinShape(a: string, b: string)
    requires !IsAbsolute(b)
    ensures PathJoin(a, b) == DirPrefix(a) + b
  {
  }

  function DirPrefix(a: string): string
  {
    if a == [] || a[|a| - 1] == '/' then a else a + "/"
  }

  /** Joining one directory with different relative names gives different paths. */
  lemma PathJoinInjective(a: string, b1: string, b2: string)
    requires !IsAbsolute(b1) && !IsAbsolute(b2)
    requires PathJoin(a, b1) == PathJoin(a, b2)
    ensures b1 == b2
  {
    PathJoinShape(a, b1);
    PathJoinShape(a, b2);
    var d := DirPrefix(a);
    assert b1 == (d + b1)[|d|..];
    assert b2 == (d + b2)[|d|..];
  }
}
