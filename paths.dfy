/** The three path operations the indexer and the search rely on, after
    Python's `ntpath` (the program's hard-wired folders are Windows paths):
    `os.path.join` of a directory and a plain file name, `os.path.basename`
    and `os.path.splitext`. Drive letters are not modelled. */
module Paths {

  /** `\` is the separator `join` writes; `/` is accepted as well. */
  const Sep: char := '\\'

  predicate IsSep(c: char) {
    c == '\\' || c == '/'
  }

  /** A name with no separator in it, such as an entry `os.walk` lists. */
  predicate IsPlainName(s: string) {
    forall i :: 0 <= i < |s| ==> !IsSep(s[i])
  }

  /** `os.path.join(dir, name)` for a `name` that is neither absolute nor
      drive-qualified: a separator is put in between unless `dir` is empty or
      already ends with one. */
  function Join(dir: string, name: string): (p: string)
    ensures p == dir + name || p == dir + [Sep] + name
    ensures dir != [] && !IsSep(dir[|dir| - 1]) ==> p == dir + [Sep] + name
    ensures dir == [] || IsSep(dir[|dir| - 1]) ==> p == dir + name
  {
    if dir != [] && !IsSep(dir[|dir| - 1]) then dir + [Sep] + name else dir + name
  }

  /** The index of the last separator of `p`, or -1 when it has none. */
  function LastSepIndex(p: string): (r: int)
    ensures -1 <= r < |p|
    ensures r >= 0 ==> IsSep(p[r])
    ensures forall i :: r < i < |p| ==> !IsSep(p[i])
  {
    if p == [] then -1
    else if IsSep(p[|p| - 1]) then |p| - 1
    else LastSepIndex(p[..|p| - 1])
  }

  /** `os.path.basename(p)`: what follows the last separator. */
  function Basename(p: string): string {
    p[LastSepIndex(p) + 1..]
  }

  /** The basename is the longest suffix of the path without a separator. */
  lemma BasenameIsLastComponent(p: string)
    ensures var b := Basename(p);
      && IsPlainName(b)
      && |b| <= |p| && p[|p| - |b|..] == b
      && (|b| < |p| ==> IsSep(p[|p| - |b| - 1]))
  {
    var r := LastSepIndex(p);
    var b := Basename(p);
    assert |p| - |b| == r + 1;
    forall i | 0 <= i < |b| ensures !IsSep(b[i]) {
      assert b[i] == p[r + 1 + i];
    }
  }

  /** Joining a directory and a plain name and taking the basename gives the
      name back: the file name `os.walk` listed is what the indexer records. */
  lemma BasenameOfJoin(dir: string, name: string)
    requires IsPlainName(name)
    ensures Basename(Join(dir, name)) == name
  {
    var pre := if dir != [] && !IsSep(dir[|dir| - 1]) then dir + [Sep] else dir;
    var p := Join(dir, name);
    assert p == pre + name;
    var r := LastSepIndex(p);
    forall i | |pre| <= i < |p| ensures !IsSep(p[i]) {
      assert p[i] == name[i - |pre|];
    }
    assert pre != [] ==> IsSep(p[|pre| - 1]);
    assert p[|pre|..] == name;
  }

  /** The index of the last occurrence of `c` in `s`, or -1 (`str.rfind`). */
  function LastIndexOf(s: string, c: char): (r: int)
    ensures -1 <= r < |s|
    ensures r >= 0 ==> s[r] == c
    ensures forall i :: r < i < |s| ==> s[i] != c
  {
    if s == [] then -1
    else if s[|s| - 1] == c then |s| - 1
    else LastIndexOf(s[..|s| - 1], c)
  }

  /** `os.path.splitext(b)` for a plain name `b`: the extension starts at the
      last dot, unless no such dot exists or only dots precede it (so
      `.bashrc` and `..` have no extension). */
  function SplitExt(b: string): (string, string) {
    var d := LastIndexOf(b, '.');
    if d >= 0 && exists i :: 0 <= i < d && b[i] != '.' then (b[..d], b[d..]) else (b, [])
  }

  /** The two parts put together are the name; a non-empty extension is a
      dot and no further dot, preceded by something other than dots; an
      empty extension means every dot-free tail follows only dots. */
  lemma SplitExtParts(b: string)
    ensures var (root, ext) := SplitExt(b);
      && root + ext == b
      && (ext != [] ==> ext[0] == '.' && '.' !in ext[1..])
      && (ext != [] ==> exists i :: 0 <= i < |root| && root[i] != '.')
      && (ext == [] ==> forall d :: 0 <= d < |b| && b[d] == '.' && '.' !in b[d + 1..] ==>
                          forall i :: 0 <= i < d ==> b[i] == '.')
  {
  }
}
