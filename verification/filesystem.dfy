/**
 * The file system as the tool uses it: a map from path strings to file
 * contents, Windows path strings with '\' as the separator, and the string
 * operations the tool applies to paths (Path.Combine, Path.GetFileName,
 * Path.GetExtension, TrimStart, Contains, Replace).
 */
module FileSystem {

  type Path = string

  /** The directory separator of the paths the tool builds and receives. */
  const SEP: char := '\\'

  /** `p` lies somewhere below `folder`: it is `folder`, a separator, then more. */
  predicate Under(folder: Path, p: Path) {
    |folder| < |p| && p[..|folder|] == folder && p[|folder|] == SEP
  }

  /** Directory.GetFiles(folder, "*.*", AllDirectories): every file below `folder`. */
  function FilesUnder(files: map<Path, seq<bv8>>, folder: Path): (r: set<Path>) {
    set p | p in files && Under(folder, p)
  }

  /** `r` lists every path of `s` exactly once, in some order. */
  ghost predicate Listing(r: seq<Path>, s: set<Path>) {
    && |r| == |s|
    && (forall p :: p in r <==> p in s)
    && (forall i, j :: 0 <= i < j < |r| ==> r[i] != r[j])
  }

  /** String.TrimStart(c): `s` without its leading run of `c`. */
  function TrimStart(s: string, c: char): (r: string)
    ensures |r| <= |s| && r == s[|s| - |r|..]
    ensures r == [] || r[0] != c
    ensures forall i :: 0 <= i < |s| - |r| ==> s[i] == c
    decreases |s|
  {
    if |s| > 0 && s[0] == c then TrimStart(s[1..], c) else s
  }

  /**
   * `path[root.Length..].TrimStart('\\')`: the name of `path` relative to
   * `root`, as entry names and copy destinations are formed.
   */
  function RelativeName(path: Path, root: Path): (r: Path)
    requires |root| <= |path|
  {
    TrimStart(path[|root|..], SEP)
  }

  /** Path.Combine(a, b): a rooted `b` wins, an empty side is dropped, otherwise one separator joins them. */
  function Combine(a: Path, b: Path): (r: Path) {
    if |b| > 0 && b[0] == SEP then b
    else if |a| == 0 then b
    else if |b| == 0 then a
    else if a[|a| - 1] == SEP then a + b
    else a + [SEP] + b
  }

  /** Index of the last `c` in `s`, or -1. */
  function LastIndexOf(s: string, c: char): (r: int)
    ensures -1 <= r < |s|
    ensures r >= 0 ==> s[r] == c
    ensures forall i :: r < i < |s| ==> s[i] != c
  {
    if |s| == 0 then -1
    else if s[|s| - 1] == c then |s| - 1
    else LastIndexOf(s[..|s| - 1], c)
  }

  /** Path.GetFileName: what follows the last separator. */
  function FileName(p: Path): (r: Path) {
    p[LastIndexOf(p, SEP) + 1..]
  }

  /** Path.GetExtension: from the last '.' of the file name on, or "" when there is none or it ends the name. */
  function Extension(p: Path): (r: string) {
    var f := FileName(p);
    var k := LastIndexOf(f, '.');
    if k < 0 || k == |f| - 1 then "" else f[k..]
  }

  /** Path.GetFileNameWithoutExtension: the file name up to its last '.'. */
  function FileNameWithoutExtension(p: Path): (r: Path) {
    var f := FileName(p);
    var k := LastIndexOf(f, '.');
    if k < 0 then f else f[..k]
  }

  /** `t` occurs in `s` at index i. */
  predicate OccursAt(s: string, t: string, i: int) {
    0 <= i <= |s| - |t| && s[i..i + |t|] == t
  }

  /** String.Contains. */
  predicate Contains(s: string, t: string) {
    exists i | 0 <= i <= |s| - |t| :: OccursAt(s, t, i)
  }

  /** String.Replace: every occurrence of `from`, scanning left to right without overlaps, becomes `to`. */
  function Replace(s: string, from: string, to: string): (r: string)
    requires |from| > 0
    decreases |s|
  {
    if |s| < |from| then s
    else if s[..|from|] == from then to + Replace(s[|from|..], from, to)
    else [s[0]] + Replace(s[1..], from, to)
  }

  /** Combining a folder with a name that does not start with a separator keeps the folder as a prefix. */
  lemma CombineKeepsFolder(folder: Path, name: Path)
    requires |folder| > 0
    requires name == [] || name[0] != SEP
    ensures |folder| <= |Combine(folder, name)| && Combine(folder, name)[..|folder|] == folder
  {
  }

  /** A path without separators lies below no folder. */
  lemma NoSeparatorNotUnder(folder: Path, p: Path)
    requires forall i :: 0 <= i < |p| ==> p[i] != SEP
    ensures !Under(folder, p)
  {
  }

  /** A file name never holds a separator. */
  lemma FileNameHasNoSeparator(p: Path)
    ensures forall i :: 0 <= i < |FileName(p)| ==> FileName(p)[i] != SEP
  {
    SuffixAfterLast(p, SEP, LastIndexOf(p, SEP), FileName(p));
  }

  /** What follows the last `c` holds no `c`. */
  lemma SuffixAfterLast(s: string, c: char, k: int, tail: string)
    requires -1 <= k < |s| && tail == s[k + 1..]
    requires forall i :: k < i < |s| ==> s[i] != c
    ensures forall i :: 0 <= i < |tail| ==> tail[i] != c
  {
    forall i | 0 <= i < |tail|
      ensures tail[i] != c
    {
      assert tail[i] == s[k + 1 + i];
    }
  }

  /** A relative name never starts with a separator and is a tail of the path. */
  lemma RelativeNameShape(path: Path, root: Path)
    requires |root| <= |path|
    ensures RelativeName(path, root) == [] || RelativeName(path, root)[0] != SEP
    ensures RelativeName(path, root) == path[|path| - |RelativeName(path, root)|..]
  {
  }

  /** The relative name of `root\rel` is `rel`, when `rel` does not start with a separator. */
  lemma {:induction false} RelativeNameOfChild(root: Path, rel: Path)
    requires rel == [] || rel[0] != SEP
    ensures RelativeName(root + [SEP] + rel, root) == rel
  {
    var path := root + [SEP] + rel;
    assert path[|root|..] == [SEP] + rel;
    assert ([SEP] + rel)[1..] == rel;
  }

  /**
   * Combining a folder with a non-empty name that does not start with a
   * separator gives a path below the folder, whose relative name is that name.
   */
  lemma CombineChild(folder: Path, rel: Path)
    requires |folder| > 0 && folder[|folder| - 1] != SEP
    requires |rel| > 0 && rel[0] != SEP
    ensures Combine(folder, rel) == folder + [SEP] + rel
    ensures Under(folder, Combine(folder, rel))
    ensures RelativeName(Combine(folder, rel), folder) == rel
  {
    RelativeNameOfChild(folder, rel);
    assert (folder + [SEP] + rel)[..|folder|] == folder;
  }

  /** The relative names of two paths below a folder differ only if the paths do, up to leading separators. */
  lemma RelativeNameInjective(root: Path, p: Path, q: Path)
    requires Under(root, p) && Under(root, q)
    requires |p| > |root| + 1 && p[|root| + 1] != SEP
    requires |q| > |root| + 1 && q[|root| + 1] != SEP
    requires RelativeName(p, root) == RelativeName(q, root)
    ensures p == q
  {
    assert p == root + [SEP] + p[|root| + 1..];
    assert q == root + [SEP] + q[|root| + 1..];
    RelativeNameOfChild(root, p[|root| + 1..]);
    RelativeNameOfChild(root, q[|root| + 1..]);
  }

  /** The last `c` of `s + t` is the last `c` of `t` when `t` has one, and otherwise the last `c` of `s`. */
  lemma {:induction false} LastIndexOfAppend(s: string, t: string, c: char)
    ensures LastIndexOf(s + t, c) == if LastIndexOf(t, c) >= 0 then |s| + LastIndexOf(t, c) else LastIndexOf(s, c)
    decreases |t|
  {
    if |t| > 0 && t[|t| - 1] != c {
      assert (s + t)[..|s + t| - 1] == s + t[..|t| - 1];
      LastIndexOfAppend(s, t[..|t| - 1], c);
    } else if |t| == 0 {
      assert s + t == s;
    }
  }

  /** Appending ".dec" to a path appends it to the file name. */
  lemma FileNameOfDecSuffix(p: Path)
    ensures FileName(p + ".dec") == FileName(p) + ".dec"
  {
    var dec := ".dec";
    assert LastIndexOf(dec, SEP) == -1;
    LastIndexOfAppend(p, dec, SEP);
    var k := LastIndexOf(p, SEP);
    assert (p + dec)[k + 1..] == p[k + 1..] + dec;
  }

  /** Appending ".dec" to a path gives it the extension ".dec". */
  lemma ExtensionOfDecSuffix(p: Path)
    ensures Extension(p + ".dec") == ".dec"
  {
    var dec := ".dec";
    FileNameOfDecSuffix(p);
    var d := LastIndexOf(dec, '.');
    assert d == 0 by {
      assert dec[0] == '.';
      assert d >= 0;
      assert dec[d] == '.';
    }
    LastIndexOfAppend(FileName(p), dec, '.');
  }

  /** The bare suffix: ".dec" becomes ".enc". */
  lemma ReplaceBareDecSuffix()
    ensures Replace(".dec", "dec", "enc") == ".enc"
  {
    var s, d := ".dec", "dec";
    assert s[..3][0] == '.';
    assert s[1..] == d;
    assert d[..3] == d && d[3..] == [];
    assert Replace(d, "dec", "enc") == "enc";
  }

  /** A path without "dec" does not start one, even with ".dec" appended, and neither does its tail. */
  lemma NoDecAtFront(p: Path)
    requires |p| > 0 && !Contains(p, "dec")
    ensures (p + ".dec")[..3] != "dec"
    ensures !Contains(p[1..], "dec")
  {
    var s := p + ".dec";
    if |p| >= 3 {
      assert !OccursAt(p, "dec", 0);
      assert s[..3] == p[..3];
    } else {
      assert s[..3][|p|] == '.';
    }
    forall i | 0 <= i <= |p| - 4
      ensures !OccursAt(p[1..], "dec", i)
    {
      assert !OccursAt(p, "dec", i + 1);
      assert p[1..][i..i + 3] == p[i + 1..i + 4];
    }
  }

  /** Replacing "dec" in a path without one and a trailing ".dec" rewrites only the suffix. */
  lemma {:induction false} ReplaceDecSuffix(p: Path)
    requires !Contains(p, "dec")
    ensures Replace(p + ".dec", "dec", "enc") == p + ".enc"
    decreases |p|
  {
    if |p| == 0 {
      assert p + ".dec" == ".dec" && p + ".enc" == ".enc";
      ReplaceBareDecSuffix();
    } else {
      NoDecAtFront(p);
      assert (p + ".dec")[1..] == p[1..] + ".dec";
      ReplaceDecSuffix(p[1..]);
      assert [p[0]] + (p[1..] + ".enc") == p + ".enc";
    }
  }

  /** Directory.Exists: some file lies below `p`. */
  predicate FolderExists(files: map<Path, seq<bv8>>, p: Path) {
    exists q | q in files :: Under(p, q)
  }

  /**
   * File.OpenWrite(p) can open `p`: it creates the file but no folder, so
   * what precedes the last separator of `p` must be nothing (the working
   * directory), the root, or an existing directory.
   */
  predicate CanOpenForWrite(files: map<Path, seq<bv8>>, p: Path) {
    var k := LastIndexOf(p, SEP);
    k <= 0 || FolderExists(files, p[..k])
  }

  /** An existing file can be rewritten: its own folder exists. */
  lemma ExistingFileIsWritable(files: map<Path, seq<bv8>>, p: Path)
    requires p in files
    ensures CanOpenForWrite(files, p)
  {
    var k := LastIndexOf(p, SEP);
    if k > 0 {
      assert Under(p[..k], p);
    }
  }

  /** A name made by appending separator-free text to an existing file lies in that file's folder. */
  lemma SiblingIsWritable(files: map<Path, seq<bv8>>, p: Path, suffix: string)
    requires p in files
    requires forall i :: 0 <= i < |suffix| ==> suffix[i] != SEP
    ensures CanOpenForWrite(files, p + suffix)
  {
    LastIndexOfAppend(p, suffix, SEP);
    var k := LastIndexOf(p, SEP);
    assert LastIndexOf(p + suffix, SEP) == k;
    if k > 0 {
      assert (p + suffix)[..k] == p[..k];
      assert Under(p[..k], p);
    }
  }

  /** Adding files never removes a folder, so a writable path stays writable. */
  lemma WritableStaysWritable(files: map<Path, seq<bv8>>, more: map<Path, seq<bv8>>, p: Path)
    requires files.Keys <= more.Keys && CanOpenForWrite(files, p)
    ensures CanOpenForWrite(more, p)
  {
    var k := LastIndexOf(p, SEP);
    if k > 0 {
      var q :| q in files && Under(p[..k], q);
      assert q in more;
    }
  }

  /** The file system: every file's contents by path. Directories are implied by the files below them. */
  class FileSystem {
    var files: map<Path, seq<bv8>>

    constructor (initial: map<Path, seq<bv8>>)
      ensures files == initial
    {
      files := initial;
    }

    /** Directory.Exists on the current files. */
    predicate DirectoryExists(p: Path)
      reads this
    {
      FolderExists(files, p)
    }

    /** GetFilesRecursive: every file below `folder`, each once, in an order the platform picks. */
    method GetFilesRecursive(folder: Path) returns (r: seq<Path>)
      ensures Listing(r, FilesUnder(files, folder))
      ensures forall i :: 0 <= i < |r| ==> r[i] in files && Under(folder, r[i])
    {
      var all := FilesUnder(files, folder);
      var pending := all;
      r := [];
      while pending != {}
        invariant pending <= all
        invariant forall p :: p in r <==> p in all && p !in pending
        invariant |r| + |pending| == |all|
        invariant forall i, j :: 0 <= i < j < |r| ==> r[i] != r[j]
        invariant forall i :: 0 <= i < |r| ==> r[i] in files && Under(folder, r[i])
        decreases |pending|
      {
        var p :| p in pending;
        r := r + [p];
        pending := pending - {p};
      }
    }
  }
}
