/** POSIX path helpers as Python's `os.path` computes them on a POSIX host. */
module Paths {

  /** `os.path.basename(path)`: everything after the last `/`. */
  function Basename(path: string): (name: string)
    ensures |name| <= |path|
  {
    if path == [] || path[|path| - 1] == '/' then ""
    else Basename(path[..|path| - 1]) + [path[|path| - 1]]
  }

  /** The base name is the longest suffix of the path free of `/`: it is a
      suffix, holds no `/`, and unless it is the whole path a `/` comes
      right before it. */
  lemma {:induction false} BasenameSpec(path: string)
    ensures '/' !in Basename(path)
    ensures |Basename(path)| <= |path| && Basename(path) == path[|path| - |Basename(path)|..]
    ensures |Basename(path)| < |path| ==> path[|path| - |Basename(path)| - 1] == '/'
  {
    if path != [] && path[|path| - 1] != '/' {
      var init, last := path[..|path| - 1], path[|path| - 1];
      var name := Basename(init);
      BasenameSpec(init);
      assert Basename(path) == name + [last];
      assert path[|path| - |name| - 1..] == init[|init| - |name|..] + [last];
      if |name| < |init| {
        assert path[|path| - |name| - 2] == init[|init| - |name| - 1];
      }
    }
  }

  /** The base name of `dir/name` is `name`, whatever `dir` is. */
  lemma {:induction false} BasenameAfterSlash(dir: string, name: string)
    requires '/' !in name
    ensures Basename(dir + "/" + name) == name
    decreases |name|
  {
    var path := dir + "/" + name;
    if name != [] {
      var init := name[..|name| - 1];
      assert path[..|path| - 1] == dir + "/" + init;
      BasenameAfterSlash(dir, init);
      assert init + [name[|name| - 1]] == name;
    }
  }

  /** `os.path.join(a, b)` for two components: an absolute `b` replaces
      `a`; otherwise `b` follows `a`, with a `/` added between them unless
      `a` is empty or already ends in one. */
  function JoinPath(a: string, b: string): (p: string)
    ensures |b| > 0 && b[0] == '/' ==> p == b
    ensures !(|b| > 0 && b[0] == '/') ==> |a| + |b| <= |p| <= |a| + |b| + 1 && p[..|a|] == a && p[|p| - |b|..] == b
    ensures |p| == |a| + |b| + 1 ==> p[|a|] == '/'
    ensures !(|b| > 0 && b[0] == '/') ==> (|p| == |a| + |b| + 1 <==> a != [] && a[|a| - 1] != '/')
  {
    if |b| > 0 && b[0] == '/' then b
    else if a == [] || a[|a| - 1] == '/' then a + b
    else a + "/" + b
  }

  /** Joining a non-empty directory name that does not end in `/` with a
      relative file name puts exactly one `/` between them, and the file
      name is then the base name of the result. */
  lemma JoinPathUnderDirectory(dir: string, name: string)
    requires dir != [] && dir[|dir| - 1] != '/'
    requires '/' !in name
    ensures JoinPath(dir, name) == dir + "/" + name
    ensures Basename(JoinPath(dir, name)) == name
  {
    BasenameAfterSlash(dir, name);
  }
}
