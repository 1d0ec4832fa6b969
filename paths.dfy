/**
 * POSIX path operations the anonymizer uses (Python's os.path on Linux):
 * join, basename and dirname, and the output directory each file is written to.
 */
module Paths {
  import opened Text

  /** Index just past the last '/' of p, 0 when p has none (Python's p.rfind('/') + 1). */
  function SplitIndex(p: string): (i: nat)
    ensures i <= |p|
    ensures i == 0 || p[i - 1] == '/'
    ensures forall k :: i <= k < |p| ==> p[k] != '/'
  {
    if p == [] then 0
    else if p[|p| - 1] == '/' then |p|
    else SplitIndex(p[..|p| - 1])
  }

  /** os.path.basename: what follows the last '/'. */
  function Basename(p: string): (b: string)
    ensures '/' !in b && |b| <= |p|
    ensures p == p[..|p| - |b|] + b
    ensures |b| < |p| ==> p[|p| - |b| - 1] == '/'
  {
    p[SplitIndex(p)..]
  }

  predicate AllSlashes(s: string) { forall k :: 0 <= k < |s| ==> s[k] == '/' }

  function RStripSlashes(s: string): (r: string)
    ensures r <= s
    ensures r == [] || r[|r| - 1] != '/'
    ensures AllSlashes(s[|r|..])
  {
    if s != [] && s[|s| - 1] == '/' then RStripSlashes(s[..|s| - 1]) else s
  }

  /**
   * os.path.dirname: everything up to the last '/', with trailing slashes
   * removed unless nothing but slashes is left.
   */
  function Dirname(p: string): (d: string)
    ensures d <= p
  {
    var head := p[..SplitIndex(p)];
    if head != [] && !AllSlashes(head) then RStripSlashes(head) else head
  }

  /** os.path.join with two components. */
  function Join(a: string, b: string): (r: string)
    ensures |b| > 0 && b[0] == '/' ==> r == b
  {
    if |b| > 0 && b[0] == '/' then b
    else if a == [] || a[|a| - 1] == '/' then a + b
    else a + "/" + b
  }

  /** Joining a file name onto a directory and splitting it again gives both back. */
  lemma JoinSplit(dir: string, name: string)
    requires dir != [] && dir[|dir| - 1] != '/'
    requires name != [] && '/' !in name
    ensures Dirname(Join(dir, name)) == dir
    ensures Basename(Join(dir, name)) == name
  {
    var p := Join(dir, name);
    assert name[0] != '/';
    assert p == dir + "/" + name;
    var i := SplitIndex(p);
    assert p[|dir|] == '/';
    assert i == |dir| + 1;
    var head := p[..i];
    assert head == dir + "/";
    assert head[|dir| - 1] != '/';
    assert head[..|head| - 1] == dir;
  }

  /**
   * The directory a file is written to: every occurrence of the source root in
   * its path replaced by the output root, then the directory part.
   */
  function OutputDir(fullFilename: string, sourceRoot: string, outputRoot: string): string
  {
    Dirname(ReplaceAll(fullFilename, sourceRoot, outputRoot))
  }

  /**
   * A file below the source root whose relative path does not mention the
   * source root again lands at the same relative place below the output root.
   */
  lemma OutputDirMirrors(sourceRoot: string, rel: string, outputRoot: string)
    requires sourceRoot != [] && !Occurs(rel, sourceRoot)
    ensures OutputDir(sourceRoot + rel, sourceRoot, outputRoot) == Dirname(outputRoot + rel)
  {
    ReplaceLeading(sourceRoot, rel, outputRoot);
    ReplaceAbsent(rel, sourceRoot, outputRoot);
  }
}
