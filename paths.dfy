/**
  The POSIX forms of the os.path functions the narrator uses to name its
  output: basename, join and the extension half of splitext.
 */
module Paths {
  import opened Text

  /** str.rfind for one character: the last index holding c, or -1. */
  function LastIndexOf(s: string, c: char): (r: int)
    ensures -1 <= r < |s|
    ensures r >= 0 ==> s[r] == c
    ensures forall i :: r < i < |s| ==> s[i] != c
  {
    if s == [] then -1
    else if s[|s| - 1] == c then |s| - 1
    else LastIndexOf(s[..|s| - 1], c)
  }

  /** os.path.basename: what follows the last '/'. */
  function Basename(p: string): (r: string)
    ensures '/' !in r
    ensures |r| <= |p| && r == p[|p| - |r|..]
    ensures |r| == |p| || p[|p| - |r| - 1] == '/'
  {
    var k := LastIndexOf(p, '/');
    p[k + 1..]
  }

  /** os.path.join with two arguments. */
  function Join(a: string, b: string): (r: string)
    ensures b != [] && b[0] == '/' ==> r == b
    ensures (b == [] || b[0] != '/') && (a == [] || a[|a| - 1] == '/') ==> r == a + b
    ensures (b == [] || b[0] != '/') && a != [] && a[|a| - 1] != '/' ==> r == a + "/" + b
  {
    if b != [] && b[0] == '/' then b
    else if a == [] || a[|a| - 1] == '/' then a + b
    else a + "/" + b
  }

  predicate AllDots(s: string) {
    forall i :: 0 <= i < |s| ==> s[i] == '.'
  }

  /**
    The extension os.path.splitext returns, for a path whose base name is
    `name`: from the last '.' to the end, provided some character before that
    dot is not a dot (leading dots do not start an extension); otherwise empty.
   */
  function NameExt(name: string): (r: string)
    ensures r != [] ==> |r| <= |name| && r == name[|name| - |r|..]
    ensures r != [] ==> r[0] == '.' && '.' !in r[1..]
  {
    var d := LastIndexOf(name, '.');
    if d >= 0 && !AllDots(name[..d]) then name[d..] else ""
  }

  /** os.path.splitext(p)[1]: the extension of the path's base name. */
  function Ext(p: string): string {
    NameExt(Basename(p))
  }

  /** The name has a dot somewhere after a character that is not a dot. */
  predicate DotAfterNonDot(name: string) {
    exists i, j :: 0 <= i < j < |name| && name[i] != '.' && name[j] == '.'
  }

  /** The extension is non-empty exactly when the name has a dot somewhere after a non-dot character. */
  lemma NameExtNonEmpty(name: string)
    ensures NameExt(name) != [] <==> DotAfterNonDot(name)
  {
    var d := LastIndexOf(name, '.');
    if d >= 0 && !AllDots(name[..d]) {
      var i :| 0 <= i < d && name[..d][i] != '.';
      assert name[i] != '.' && name[d] == '.';
    }
  }

  /** The last occurrence of c is at k when s[k] is c and no c follows it. */
  lemma LastIndexOfAt(s: string, c: char, k: nat)
    requires k < |s| && s[k] == c
    requires forall i :: k < i < |s| ==> s[i] != c
    ensures LastIndexOf(s, c) == k
  {
  }

  /**
    A name has extension e (a dot followed by no other dot) exactly when it
    ends in e and what comes before e is not all dots.
   */
  lemma NameExtIs(name: string, e: string)
    requires e != [] && e[0] == '.' && '.' !in e[1..]
    ensures NameExt(name) == e <==>
      |e| <= |name| && name[|name| - |e|..] == e && !AllDots(name[..|name| - |e|])
  {
    if |e| <= |name| && name[|name| - |e|..] == e {
      var k := |name| - |e|;
      forall i | k < i < |name| ensures name[i] != '.' {
        assert name[i] == e[1..][i - k - 1];
      }
      LastIndexOfAt(name, '.', k);
    }
  }

  /** `name.split('.')[0]`: the name up to its first dot. */
  function Stem(name: string): (r: string)
    ensures '.' !in r
    ensures |r| <= |name| && r == name[..|r|]
    ensures |r| == |name| || name[|r|] == '.'
  {
    SplitOn(name, '.')[0]
  }

  /** The stem ends at the first dot. */
  lemma StemAt(name: string, d: nat)
    requires d < |name| && name[d] == '.'
    requires forall i :: 0 <= i < d ==> name[i] != '.'
    ensures Stem(name) == name[..d]
  {
  }

  /** The output file name: the base name up to its first dot, then ".mp3". */
  function OutName(filePath: string): string {
    Stem(Basename(filePath)) + ".mp3"
  }

  /** The output path: the output file name inside the output directory. */
  function OutPath(filePath: string, outDir: string): string {
    Join(outDir, OutName(filePath))
  }

  /**
    The output path is the output directory, a '/' when it does not already
    end in one, and the output file name; that name is the base name's text
    before its first dot, holds no '/' and no other '.', and ends in ".mp3".
   */
  lemma OutPathShape(filePath: string, outDir: string)
    ensures var stem := Stem(Basename(filePath));
      '/' !in stem && '.' !in stem &&
      stem == Basename(filePath)[..|stem|] &&
      (|stem| == |Basename(filePath)| || Basename(filePath)[|stem|] == '.') &&
      OutPath(filePath, outDir) ==
        (if outDir == [] || outDir[|outDir| - 1] == '/' then outDir else outDir + "/") + stem + ".mp3"
  {
    var base := Basename(filePath);
    var stem := Stem(base);
    var name := OutName(filePath);
    assert '/' !in stem by {
      forall k | 0 <= k < |stem| ensures stem[k] != '/' {
        assert stem[k] == base[k];
      }
    }
    assert name == stem + ".mp3";
    assert name != [] && name[0] != '/' by {
      if stem == [] { assert name[0] == '.'; } else { assert name[0] == stem[0]; }
    }
    var dir := if outDir == [] || outDir[|outDir| - 1] == '/' then outDir else outDir + "/";
    assert Join(outDir, name) == dir + name;
    assert dir + name == dir + stem + ".mp3";
  }

  /** A path with no '/' is its own base name. */
  lemma BasenameNoSlash(p: string)
    requires '/' !in p
    ensures Basename(p) == p
  {
    LastIndexOfAbsent(p, '/');
  }

  /** A character that does not occur has no last index. */
  lemma {:induction false} LastIndexOfAbsent(s: string, c: char)
    requires c !in s
    ensures LastIndexOf(s, c) == -1
    decreases |s|
  {
    if s != [] {
      assert c !in s[..|s| - 1];
      LastIndexOfAbsent(s[..|s| - 1], c);
    }
  }

  /** A name that starts with something other than a dot has, as extension, everything from its last dot on. */
  lemma NameExtAt(name: string, d: nat)
    requires 0 < d < |name| && name[0] != '.' && name[d] == '.'
    requires forall i :: d < i < |name| ==> name[i] != '.'
    ensures NameExt(name) == name[d..]
  {
    LastIndexOfAt(name, '.', d);
    assert name[..d][0] != '.';
  }

  /** "books/a.b.pdf": base name "a.b.pdf", extension ".pdf" (from the last dot), stem "a" (to the first dot). */
  lemma ExampleNestedDots()
    ensures Basename("books/a.b.pdf") == "a.b.pdf"
    ensures NameExt("a.b.pdf") == ".pdf"
    ensures Stem("a.b.pdf") == "a"
  {
    LastIndexOfAt("books/a.b.pdf", '/', 5);
    NameExtAt("a.b.pdf", 3);
    StemAt("a.b.pdf", 1);
  }

  /** A leading dot starts no extension; the extension keeps its case. */
  lemma ExampleExtensions()
    ensures NameExt(".pdf") == ""
    ensures NameExt("a.PDF") == ".PDF"
    ensures NameExt("report.doc") == ".doc"
  {
    LastIndexOfAt(".pdf", '.', 0);
    NameExtAt("a.PDF", 1);
    NameExtAt("report.doc", 6);
  }
}
