/**
  The two path helpers the renaming tool takes from `os.path`, reduced to
  plain string functions over a single separator: `join` and the extension
  part of `splitext`.
*/
module Paths {

  /** The path separator of this model. */
  const Sep: char := '/'

  /** `os.path.join(dir, name)` for a relative `name`: the directory, one separator, the name. */
  function Join(dir: string, name: string): (r: string)
    ensures |r| == |dir| + 1 + |name|
    ensures r[..|dir|] == dir && r[|dir|] == Sep && r[|dir| + 1..] == name
  {
    dir + [Sep] + name
  }

  /** Joining under one directory never makes two different names collide. */
  lemma JoinInjective(dir: string, a: string, b: string)
    ensures Join(dir, a) == Join(dir, b) ==> a == b
  {
    assert a == Join(dir, a)[|dir| + 1..] && b == Join(dir, b)[|dir| + 1..];
  }

  /** Index of the last occurrence of `c` in `s[..end]`, or -1. */
  function LastIndex(s: string, c: char, end: nat): (r: int)
    requires end <= |s|
    ensures -1 <= r < end
    ensures r >= 0 ==> s[r] == c
    ensures forall i :: r < i < end ==> s[i] != c
    decreases end
  {
    if end == 0 then -1
    else if s[end - 1] == c then end - 1
    else LastIndex(s, c, end - 1)
  }

  /** True when `s[from..to]` holds a character other than '.'. */
  predicate HasNonDot(s: string, from: int, to: int)
    requires 0 <= from <= to <= |s|
  {
    exists i :: from <= i < to && s[i] != '.'
  }

  /** No separator in `s[from..]`: position `from` lies in the final path component. */
  predicate NoSepFrom(s: string, from: int)
    requires 0 <= from <= |s|
  {
    forall m :: from <= m < |s| ==> s[m] != Sep
  }

  /**
    `os.path.splitext(p)[1]`: the suffix from the last '.' of the final
    path component, or "" when that component has no '.', or only leading
    dots before it (".bashrc" has no extension).
  */
  function Ext(p: string): (r: string)
    ensures r == [] || (r[0] == '.' && |r| <= |p| && r == p[|p| - |r|..])
    ensures forall i :: 1 <= i < |r| ==> r[i] != '.' && r[i] != Sep
    ensures r != [] <==> exists i, d :: 0 <= i < d < |p| && p[i] != '.' && p[d] == '.' && NoSepFrom(p, i)
  {
    var sepIndex := LastIndex(p, Sep, |p|);
    var dotIndex := LastIndex(p, '.', |p|);
    if dotIndex > sepIndex && HasNonDot(p, sepIndex + 1, dotIndex) then
      var i :| sepIndex + 1 <= i < dotIndex && p[i] != '.';
      assert NoSepFrom(p, i);
      p[dotIndex..]
    else
      []
  }

  /** Examples of the extension rule. */
  lemma ExtExamples(a: string, b: string, c: string)
    requires a == "/src/a.jpg" && b == "/src/.bashrc" && c == "/src.d/readme"
    ensures Ext(a) == ".jpg"
    ensures Ext(b) == []
    ensures Ext(c) == []
  {
    var sa, da := LastIndex(a, Sep, |a|), LastIndex(a, '.', |a|);
    assert a[0] == a[4] == Sep && a[6] == '.' && a[5] != '.';
    assert sa == 4 && da == 6;
    assert HasNonDot(a, sa + 1, da);
    assert a[6..] == ".jpg";
    var sb, db := LastIndex(b, Sep, |b|), LastIndex(b, '.', |b|);
    assert b[0] == b[4] == Sep && b[5] == '.';
    assert sb == 4 && db == 5;
    var sc, dc := LastIndex(c, Sep, |c|), LastIndex(c, '.', |c|);
    assert c[4] == '.' && c[6] == Sep;
    assert sc == 6 && dc <= 4;
  }
}
