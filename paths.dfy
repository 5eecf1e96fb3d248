/** Python's `os.path` functions on POSIX paths ('/' is the only separator). */
module Paths {
  import opened Wrappers
  import opened Strings

  /** `os.path.basename(p)`: what follows the last '/'. */
  function Basename(p: string): (r: string)
    ensures '/' !in r
    ensures IsSuffix(r, p)
    ensures |r| < |p| ==> p[|p| - |r| - 1] == '/'
    decreases |p|
  {
    if |p| == 0 || p[|p| - 1] == '/' then ""
    else
      var q := p[..|p| - 1];
      var c := p[|p| - 1];
      var r := Basename(q);
      assert p[|p| - |r| - 1..] == q[|q| - |r|..] + [c];
      assert |r| < |q| ==> p[|p| - |r| - 2] == q[|q| - |r| - 1];
      r + [c]
  }

  /** Everything up to and including the last '/', so that `p == DirPart(p) + Basename(p)`. */
  function DirPart(p: string): (d: string)
    ensures p == d + Basename(p)
    ensures d == "" || d[|d| - 1] == '/'
  {
    p[..|p| - |Basename(p)|]
  }

  /** The basename of `d + name` is `name` when `d` is empty or ends with '/' and `name` has no '/'. */
  lemma {:induction false} BasenameOfAppend(d: string, name: string)
    requires d == "" || d[|d| - 1] == '/'
    requires '/' !in name
    ensures Basename(d + name) == name
    decreases |name|
  {
    if |name| > 0 {
      var init := name[..|name| - 1];
      assert (d + name)[..|d + name| - 1] == d + init;
      BasenameOfAppend(d, init);
      assert init + [name[|name| - 1]] == name;
    } else {
      assert d + name == d;
    }
  }

  /** The stem that `os.path.splitext` gives for a file name without '/': the name up to its last '.',
      unless everything before that '.' is a dot (".bashrc" has no extension). */
  function NameStem(name: string): (r: string)
    ensures IsPrefix(r, name)
    ensures '/' !in name ==> '/' !in r
  {
    match LastIndexOf(name, '.')
    case None => name
    case Some(i) => if forall k :: 0 <= k < i ==> name[k] == '.' then name else name[..i]
  }

  /** `os.path.splitext(p)[0]`: the path without its extension. */
  function PathStem(p: string): (r: string)
    ensures IsPrefix(DirPart(p), r)
  {
    DirPart(p) + NameStem(Basename(p))
  }

  /** A file name appended to a directory part: its basename is the name and its directory the part. */
  lemma AppendToDir(d: string, name: string)
    requires d == "" || d[|d| - 1] == '/'
    requires '/' !in name
    ensures Basename(d + name) == name
    ensures DirPart(d + name) == d
  {
    BasenameOfAppend(d, name);
    assert (d + name)[..|d|] == d;
  }

  /** `PathStem(p) + suffix` sits in the directory of `p` and is named after the stem of its basename. */
  lemma StemSibling(p: string, suffix: string)
    requires '/' !in suffix
    ensures DirPart(PathStem(p) + suffix) == DirPart(p)
    ensures Basename(PathStem(p) + suffix) == NameStem(Basename(p)) + suffix
  {
    var d := DirPart(p);
    var stem := NameStem(Basename(p));
    assert '/' !in stem;
    NotInAppend(stem, suffix, '/');
    Regroup(d, stem, suffix, "");
    assert PathStem(p) == d + stem;
    AppendToDir(d, stem + suffix);
  }

  /** A directory prefix of `p` (ending in '/') is also a prefix of its directory part. */
  lemma DirPartKeepsPrefix(p: string, pre: string)
    requires IsPrefix(pre, p) && |pre| > 0 && pre[|pre| - 1] == '/'
    ensures IsPrefix(pre, DirPart(p))
  {
    var d := DirPart(p);
    var b := Basename(p);
    assert forall j :: |d| <= j < |p| ==> p[j] == b[j - |d|];
    assert p[|pre| - 1] == '/';
    assert |d| >= |pre|;
    assert d[..|pre|] == p[..|pre|];
  }

  /** The stem of `x + ext` is `x` when `ext` is a '.' followed by no further '.', and `x` has a
      character other than '.'. */
  lemma NameStemOfExtension(x: string, ext: string)
    requires |ext| > 0 && ext[0] == '.' && '.' !in ext[1..]
    requires exists k :: 0 <= k < |x| && x[k] != '.'
    ensures NameStem(x + ext) == x
  {
    var n := x + ext;
    var i := LastIndexOf(n, '.');
    assert n[|x|] == '.';
    assert n[|x| + 1..] == ext[1..];
    assert i.Some?;
    assert forall j :: |x| < j < |n| ==> n[j] == ext[1..][j - |x| - 1];
    assert forall j :: i.value < j < |n| ==> n[j] == n[i.value + 1..][j - i.value - 1];
    assert i.value == |x|;
    var k :| 0 <= k < |x| && x[k] != '.';
    assert n[k] != '.';
    assert n[..|x|] == x;
  }

  /** Python's two-argument `os.path.join(a, b)`. */
  function Join(a: string, b: string): (r: string)
    ensures '/' !in b && (a == "" || a[|a| - 1] == '/') ==> r == a + b
    ensures '/' !in b && a != "" && a[|a| - 1] != '/' ==> r == a + "/" + b
  {
    if |b| > 0 && b[0] == '/' then b
    else if a == "" || a[|a| - 1] == '/' then a + b
    else a + "/" + b
  }
}
