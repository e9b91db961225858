// File-name extensions as the command-line tool obtains them from the
// Boost filesystem library: the extension of a path is taken from its last
// component, from the last '.' on (the dot included), and is empty when that
// component has no dot or is "." or "..".

module Paths {

  /** s is a suffix of t. */
  predicate IsSuffix(s: string, t: string)
  {
    |s| <= |t| && s == t[|t| - |s|..]
  }

  /** The last component of a path: everything after its last '/'. */
  function Leaf(p: string): (r: string)
    ensures IsSuffix(r, p)
    ensures '/' !in r
    ensures |r| < |p| ==> p[|p| - |r| - 1] == '/'
  {
    if p == [] then []
    else if p[|p| - 1] == '/' then []
    else Leaf(p[..|p| - 1]) + [p[|p| - 1]]
  }

  /** The part of s from its last '.' on; empty when s has no '.'. */
  function FromLastDot(s: string): (e: string)
    ensures IsSuffix(e, s)
    ensures e == [] <==> '.' !in s
    ensures e != [] ==> e[0] == '.' && '.' !in e[1..]
  {
    if s == [] then []
    else if s[|s| - 1] == '.' then ['.']
    else
      var e := FromLastDot(s[..|s| - 1]);
      if e == [] then [] else e + [s[|s| - 1]]
  }

  /** The extension of a path, dot included. */
  function Extension(p: string): (e: string)
    ensures IsSuffix(e, p) && '/' !in e
    ensures e != [] ==> e[0] == '.' && '.' !in e[1..]
    ensures '.' !in Leaf(p) ==> e == []
  {
    var leaf := Leaf(p);
    if leaf == "." || leaf == ".." then "" else FromLastDot(leaf)
  }

  /** A well-formed extension: a dot, then at least one character that is neither '.' nor '/'. */
  predicate IsExtension(ext: string)
  {
    |ext| >= 2 && ext[0] == '.' && '.' !in ext[1..] && '/' !in ext
  }

  /** Appending characters without '/' appends them to the last component. */
  lemma {:induction false} LeafAppend(base: string, tail: string)
    requires '/' !in tail
    ensures Leaf(base + tail) == Leaf(base) + tail
  {
    if tail != [] {
      var init := tail[..|tail| - 1];
      assert (base + tail)[..|base + tail| - 1] == base + init;
      assert init + [tail[|tail| - 1]] == tail;
      LeafAppend(base, init);
    } else {
      assert base + tail == base;
    }
  }

  /** Appending a well-formed extension makes it the part from the last dot. */
  lemma {:induction false} FromLastDotAppend(base: string, ext: string, n: nat)
    requires IsExtension(ext) && 1 <= n <= |ext|
    ensures FromLastDot(base + ext[..n]) == ext[..n]
  {
    var s := base + ext[..n];
    if n == 1 {
      assert s[|s| - 1] == '.';
    } else {
      assert s[..|s| - 1] == base + ext[..n - 1];
      assert ext[n - 1] in ext[1..];
      FromLastDotAppend(base, ext, n - 1);
      assert ext[..n - 1] + [ext[n - 1]] == ext[..n];
    }
  }

  /** The extension of base + ext is ext, for any well-formed extension ext. */
  lemma ExtensionOfAppend(base: string, ext: string)
    requires IsExtension(ext)
    ensures Extension(base + ext) == ext
  {
    LeafAppend(base, ext);
    var leaf := Leaf(base) + ext;
    assert leaf[|leaf| - |ext| + 1] == ext[1];
    assert ext[1] in ext[1..];
    assert leaf != "." && leaf != "..";
    FromLastDotAppend(Leaf(base), ext, |ext|);
    assert ext[..|ext|] == ext;
  }
}
