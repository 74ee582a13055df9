/** The parts of Node's `path` module (POSIX flavour) the trackers use:
    `basename`, `dirname`, `extname` and a two-part `join`. */
module NodePath {
  import opened Wrappers

  /** Index of the last occurrence of `c` in `s`, if any. */
  function LastIndex(s: string, c: char): (r: Option<nat>)
    ensures r.Some? ==> r.value < |s| && s[r.value] == c
    ensures r.Some? ==> forall k :: r.value < k < |s| ==> s[k] != c
    ensures r.None? ==> forall k :: 0 <= k < |s| ==> s[k] != c
  {
    if s == [] then None
    else if s[|s| - 1] == c then Some(|s| - 1)
    else LastIndex(s[..|s| - 1], c)
  }

  /** The last `c` of `a + [c] + b` is the one after `a` when `b` has none. */
  lemma {:induction false} LastIndexAfter(a: string, c: char, b: string)
    requires c !in b
    ensures LastIndex(a + [c] + b, c) == Some(|a|)
    decreases |b|
  {
    if b == [] {
      assert a + [c] + b == a + [c];
    } else {
      var init := b[..|b| - 1];
      assert (a + [c] + b)[..|a + [c] + b| - 1] == a + [c] + init;
      assert c !in init by {
        assert forall x :: x in init ==> x in b;
      }
      LastIndexAfter(a, c, init);
    }
  }

  /** `path.join(dir, name)` for a directory and a plain entry name. */
  function Join(dir: string, name: string): string {
    dir + "/" + name
  }

  /** `path.basename(p)`: what follows the last `/`. */
  function Basename(p: string): string {
    match LastIndex(p, '/')
    case None => p
    case Some(i) => p[i + 1..]
  }

  /** `s` without the run of `/` it ends with. */
  function TrimTrailingSlashes(s: string): (r: string)
    ensures |r| <= |s| && r == s[..|r|]
    ensures |r| > 0 ==> r[|r| - 1] != '/'
    ensures forall k :: |r| <= k < |s| ==> s[k] == '/'
  {
    if |s| > 0 && s[|s| - 1] == '/' then TrimTrailingSlashes(s[..|s| - 1]) else s
  }

  /** `path.dirname(p)`. Trailing `/` characters are skipped first; then the
      result is what precedes the last remaining `/` after the first
      character. Without such a `/` it is `"/"` for a rooted path and `"."`
      otherwise, and when that `/` is the second character of a rooted path
      it is `"//"`. */
  function Dirname(p: string): string {
    if p == [] then "."
    else
      var hasRoot := p[0] == '/';
      match LastIndex(TrimTrailingSlashes(p[1..]), '/')
      case None => if hasRoot then "/" else "."
      case Some(j) => if hasRoot && j == 0 then "//" else p[..j + 1]
  }

  /** A trailing `/` does not change the directory name. */
  lemma DirnameIgnoresTrailingSlash(p: string)
    requires p != ""
    ensures Dirname(p + "/") == Dirname(p)
  {
    var q := p + "/";
    assert q[1..] == p[1..] + "/";
    assert q[1..][..|q[1..]| - 1] == p[1..];
    var t := TrimTrailingSlashes(p[1..]);
    assert TrimTrailingSlashes(q[1..]) == t;
    match LastIndex(t, '/')
    case None =>
    case Some(j) =>
      assert q[..j + 1] == p[..j + 1];
  }

  /** Node's own examples of trailing and doubled separators. */
  lemma DirnameExamples()
    ensures Dirname("a/b/") == "a"
    ensures Dirname("/a/") == "/"
    ensures Dirname("//a") == "//"
    ensures Dirname("/") == "/" && Dirname("") == "." && Dirname("a") == "."
  {
    assert "a/b/"[1..] == "/b/";
    assert TrimTrailingSlashes("/b/") == "/b" by {
      assert "/b/"[..2] == "/b";
    }
    assert LastIndex("/b", '/') == Some(0) by {
      assert "/b"[..1] == "/";
    }
    assert "/a/"[1..] == "a/";
    assert TrimTrailingSlashes("a/") == "a" by {
      assert "a/"[..1] == "a";
    }
    assert "//a"[1..] == "/a";
    assert LastIndex("/a", '/') == Some(0) by {
      assert "/a"[..1] == "/";
    }
  }

  /** The directory name of a joined path is the directory that was joined,
      for a directory that does not end with `/` and a non-empty entry name. */
  lemma DirnameOfJoin(dir: string, name: string)
    requires dir != "" && dir[|dir| - 1] != '/'
    requires name != "" && '/' !in name
    ensures Dirname(Join(dir, name)) == dir
  {
    var p := Join(dir, name);
    assert p == dir + ['/'] + name;
    assert p[1..] == dir[1..] + ['/'] + name;
    assert p[1..][|p[1..]| - 1] == name[|name| - 1];
    assert TrimTrailingSlashes(p[1..]) == p[1..];
    LastIndexAfter(dir[1..], '/', name);
    assert p[..|dir|] == dir;
  }

  /** `path.extname(p)`: the base name from its last `.` on, or `""` when the
      base name has no `.` or only a leading one. */
  function Extname(p: string): string {
    var b := Basename(p);
    match LastIndex(b, '.')
    case None => ""
    case Some(i) => if i == 0 then "" else b[i..]
  }

  /** `path.basename(p, path.extname(p))`. */
  function BasenameWithoutExt(p: string): string {
    var b := Basename(p);
    b[..|b| - |Extname(p)|]
  }

  /** The base name of a joined path is the entry name that was joined. */
  lemma BasenameOfJoin(dir: string, name: string)
    requires '/' !in name
    ensures Basename(Join(dir, name)) == name
  {
    var p := Join(dir, name);
    assert p[|dir|] == '/';
    assert forall k :: |dir| < k < |p| ==> p[k] == name[k - |dir| - 1];
    var i := LastIndex(p, '/').value;
    assert i == |dir|;
    assert p[|dir| + 1..] == name;
  }
}
