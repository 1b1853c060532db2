/** POSIX path helpers as `utils.py` uses them: `os.path.basename`,
    `os.path.splitext`, `os.path.dirname`, `os.path.join`, and the two file
    name helpers built from them. */
module Paths {

  /** `s.rfind(c)`: the index of the last occurrence of `c`, or -1. */
  function LastIndexOf(s: string, c: char): (i: int)
    ensures -1 <= i < |s|
    ensures 0 <= i ==> s[i] == c
    ensures forall k :: i < k < |s| ==> s[k] != c
    decreases |s|
  {
    if s == [] then -1
    else if s[|s| - 1] == c then |s| - 1
    else LastIndexOf(s[..|s| - 1], c)
  }

  /** Index where the last path component of `p` starts. */
  function ComponentStart(p: string): (i: nat)
    ensures i <= |p|
  {
    LastIndexOf(p, '/') + 1
  }

  /** `b` is the last path component of `p`: a suffix of `p` holding no '/',
      which is either all of `p` or preceded by a '/'. */
  ghost predicate IsLastComponent(p: string, b: string) {
    && |b| <= |p|
    && p[|p| - |b|..] == b
    && '/' !in b
    && (|b| == |p| || p[|p| - |b| - 1] == '/')
  }

  /** `os.path.basename`. */
  function Basename(p: string): (b: string)
    ensures IsLastComponent(p, b)
  {
    p[ComponentStart(p)..]
  }

  /** The last component is determined by the path alone. */
  lemma LastComponentUnique(p: string, b: string)
    requires IsLastComponent(p, b)
    ensures Basename(p) == b
  {
  }

  /** `splitext` splits `p` at index `k`: `k` holds the last '.', no '/' follows
      it, and the last component has some character other than '.' before
      `k` (leading dots of a name never start an extension). */
  ghost predicate IsExtensionAt(p: string, k: int) {
    && 0 <= k < |p|
    && p[k] == '.'
    && (forall i :: k < i < |p| ==> p[i] != '.' && p[i] != '/')
    && (exists i :: ComponentStart(p) <= i < k && p[i] != '.')
  }

  /** `os.path.splitext`: root and extension. */
  function Splitext(p: string): (r: (string, string))
    ensures r.0 + r.1 == p
    ensures r.1 == [] || (r.1[0] == '.' && '.' !in r.1[1..] && '/' !in r.1)
    ensures r.1 != [] ==> IsExtensionAt(p, |r.0|)
    ensures r.1 == [] ==> forall k :: !IsExtensionAt(p, k)
  {
    var sep := LastIndexOf(p, '/');
    var dot := LastIndexOf(p, '.');
    if sep < dot && exists i :: sep + 1 <= i < dot && p[i] != '.' then
      assert IsExtensionAt(p, dot);
      (p[..dot], p[dot..])
    else
      assert forall k :: IsExtensionAt(p, k) ==> k == dot && sep < dot;
      (p, [])
  }

  /** Extension splitting is determined by where the extension starts: a
      root/extension pair that meets the rule is what `splitext` returns. */
  lemma SplitextAt(p: string, k: int)
    requires IsExtensionAt(p, k)
    ensures Splitext(p) == (p[..k], p[k..])
  {
    var r := Splitext(p);
    assert r.1 != [];
    assert IsExtensionAt(p, |r.0|);
    assert r.0 == p[..|r.0|];
  }

  /** `utils.get_filename`: the base name without its extension. */
  function GetFilename(p: string): (r: string)
    ensures |r| <= |Basename(p)| && Basename(p)[..|r|] == r
    ensures '/' !in r
    ensures var ext := Basename(p)[|r|..]; ext == [] || (ext[0] == '.' && '.' !in ext[1..])
    ensures |r| < |Basename(p)| <==> exists k :: IsExtensionAt(Basename(p), k)
    ensures |r| < |Basename(p)| ==> IsExtensionAt(Basename(p), |r|)
  {
    Splitext(Basename(p)).0
  }

  /** `utils.get_filename_with_extension`: root and extension glued back
      together, which is the base name again. */
  function GetFilenameWithExtension(p: string): (r: string)
    ensures r == Basename(p)
  {
    Splitext(Basename(p)).0 + Splitext(Basename(p)).1
  }

  predicate AllSlashes(s: string) {
    forall i :: 0 <= i < |s| ==> s[i] == '/'
  }

  function RStripSlashes(s: string): (r: string)
    ensures |r| <= |s| && s[..|r|] == r
    ensures AllSlashes(s[|r|..])
    ensures r != [] ==> r[|r| - 1] != '/'
    decreases |s|
  {
    if s != [] && s[|s| - 1] == '/' then RStripSlashes(s[..|s| - 1]) else s
  }

  /** `os.path.dirname` (`utils.get_path`): everything before the last
      component, trailing slashes removed unless it is all slashes. */
  function Dirname(p: string): (d: string)
    ensures |d| <= ComponentStart(p) && p[..|d|] == d
    ensures AllSlashes(p[|d|..ComponentStart(p)])
    ensures AllSlashes(p[..ComponentStart(p)]) ==> d == p[..ComponentStart(p)]
    ensures !AllSlashes(d) ==> d[|d| - 1] != '/'
  {
    var head := p[..ComponentStart(p)];
    if head != [] && !AllSlashes(head) then RStripSlashes(head) else head
  }

  /** A directory part that needs no '/' before what follows it. */
  predicate Separated(a: string) {
    a == [] || a[|a| - 1] == '/'
  }

  /** `os.path.join` of two parts (`utils.create_filepath`). */
  function Join(a: string, b: string): (r: string)
    ensures 0 < |b| && b[0] == '/' ==> r == b
    ensures !(0 < |b| && b[0] == '/') ==>
      && |r| == |a| + |b| + (if Separated(a) then 0 else 1)
      && r[..|a|] == a && r[|r| - |b|..] == b
      && (!Separated(a) ==> r[|a|] == '/')
    ensures Basename(r) == Basename(b)
  {
    if 0 < |b| && b[0] == '/' then b
    else if a == [] || a[|a| - 1] == '/' then
      BasenameAfterSeparator(a, b);
      a + b
    else
      BasenameAfterSeparator(a + "/", b);
      a + "/" + b
  }

  /** Prefixing a directory that ends in '/' does not change a base name. */
  lemma BasenameAfterSeparator(x: string, b: string)
    requires x == [] || x[|x| - 1] == '/'
    ensures Basename(x + b) == Basename(b)
  {
    LastSlashAfter(x, b);
    DropAfter(x, b, ComponentStart(b));
  }

  /** After a directory ending in '/', the last '/' is found where it is
      found in the appended part, shifted by the directory's length. */
  lemma {:induction false} LastSlashAfter(x: string, b: string)
    requires x == [] || x[|x| - 1] == '/'
    ensures LastIndexOf(x + b, '/') == |x| + LastIndexOf(b, '/')
    decreases |b|
  {
    if b == [] {
      assert x + b == x;
    } else if b[|b| - 1] != '/' {
      assert (x + b)[..|x + b| - 1] == x + b[..|b| - 1];
      LastSlashAfter(x, b[..|b| - 1]);
    }
  }

  lemma DropAfter<T>(x: seq<T>, b: seq<T>, i: nat)
    requires i <= |b|
    ensures (x + b)[|x| + i..] == b[i..]
  {
  }

  /** Text without a '/' leaves the last '/' where it was. */
  lemma {:induction false} LastSlashAppend(p: string, t: string)
    requires '/' !in t
    ensures LastIndexOf(p + t, '/') == LastIndexOf(p, '/')
    decreases |t|
  {
    if t == [] {
      assert p + t == p;
    } else {
      assert (p + t)[..|p + t| - 1] == p + t[..|t| - 1];
      LastSlashAppend(p, t[..|t| - 1]);
    }
  }

  /** A file name joined onto a directory `dirname` can return lies in
      that directory again. */
  lemma DirnameJoin(d: string, name: string)
    requires AllSlashes(d) || d[|d| - 1] != '/'
    requires name != [] && '/' !in name
    ensures Dirname(Join(d, name)) == d
  {
    if AllSlashes(d) {
      assert Join(d, name) == d + name;
      LastSlashAppend(d, name);
      assert (d + name)[..|d|] == d;
    } else {
      assert Join(d, name) == (d + "/") + name;
      LastSlashAppend(d + "/", name);
      assert ((d + "/") + name)[..|d| + 1] == d + "/";
      assert RStripSlashes(d + "/") == RStripSlashes(d);
    }
  }
}
