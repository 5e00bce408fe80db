/** The POSIX path operations the batch mode relies on (os.path.basename,
    os.path.splitext and os.path.join), on '/'-separated strings, and the
    output path of one batch input. */
module Paths {

  /** Index of the last occurrence of `c` in `s`, or -1 (str.rfind). */
  function LastIndexOf(s: string, c: char): (i: int)
    ensures -1 <= i < |s|
    ensures i >= 0 ==> s[i] == c
    ensures forall j :: i < j < |s| ==> s[j] != c
  {
    if s == [] then -1
    else if s[|s| - 1] == c then |s| - 1
    else LastIndexOf(s[..|s| - 1], c)
  }

  /** The final component of `path`: everything after the last '/'. */
  function Basename(path: string): (name: string)
    ensures '/' !in name
    ensures |name| <= |path| && path[|path| - |name|..] == name
    ensures |name| < |path| ==> path[|path| - |name| - 1] == '/'
  {
    var i := LastIndexOf(path, '/') + 1;
    assert forall c :: c in path[i..] ==> c != '/';
    path[i..]
  }

  /** `path` split into root and extension. The extension starts at the last
      '.' after the last '/', unless only dots precede that '.' in the final
      component (a dot file has no extension); otherwise it is empty. */
  function SplitExt(path: string): (parts: (string, string))
    ensures parts.0 + parts.1 == path
    ensures parts.1 != "" ==> parts.1[0] == '.' && '.' !in parts.1[1..] && '/' !in parts.1
    ensures parts.1 != "" ==>
      exists k :: LastIndexOf(path, '/') < k < |parts.0| && parts.0[k] != '.'
  {
    var sepIndex := LastIndexOf(path, '/');
    var dotIndex := LastIndexOf(path, '.');
    if dotIndex > sepIndex && exists k :: sepIndex < k < dotIndex && path[k] != '.' then
      assert forall j :: dotIndex < j < |path| ==> path[j] != '.' && path[j] != '/';
      (path[..dotIndex], path[dotIndex..])
    else
      (path, "")
  }

  /** os.path.join of two components: an absolute second component replaces
      the first; otherwise they are joined with exactly one '/' between them. */
  function JoinPath(dir: string, name: string): string {
    if |name| > 0 && name[0] == '/' then name
    else if dir == "" || dir[|dir| - 1] == '/' then dir + name
    else dir + "/" + name
  }

  /** The base name of `path` without its last extension. */
  function Stem(path: string): string {
    SplitExt(Basename(path)).0
  }

  /** Where the batch mode writes the text of `path`: `<stem>.txt` in `outputDir`. */
  function OutputPath(outputDir: string, path: string): string {
    JoinPath(outputDir, Stem(path) + ".txt")
  }

  /** A name with no '/' is the base name of any path that ends in it after
      a separator (or of itself). */
  lemma BasenameAfterSeparator(prefix: string, name: string)
    requires '/' !in name
    requires prefix == "" || prefix[|prefix| - 1] == '/'
    ensures Basename(prefix + name) == name
  {
    var path := prefix + name;
    if prefix != "" {
      assert path[|prefix| - 1] == '/';
    }
    assert forall j :: |prefix| <= j < |path| ==> path[j] == name[j - |prefix|];
    assert LastIndexOf(path, '/') == |prefix| - 1;
    assert path[|prefix|..] == name;
  }

  /** The stem has no '/', and with the dropped extension gives back the base name. */
  lemma StemParts(path: string)
    ensures Stem(path) + SplitExt(Basename(path)).1 == Basename(path)
    ensures '/' !in Stem(path)
  {
    var base := Basename(path);
    var stem := Stem(path);
    assert base == stem + SplitExt(base).1;
    forall c | c in stem ensures c != '/' {
      assert c in base;
    }
  }

  /** The output file of an input is named after the input's base name,
      minus its extension, plus ".txt"; the stem and the extension together
      give back the base name. */
  lemma OutputPathShape(outputDir: string, path: string)
    ensures Stem(path) + SplitExt(Basename(path)).1 == Basename(path)
    ensures '/' !in Stem(path)
    ensures Basename(OutputPath(outputDir, path)) == Stem(path) + ".txt"
  {
    StemParts(path);
    var name := Stem(path) + ".txt";
    TxtNameHasNoSlash(Stem(path));
    if outputDir == "" || outputDir[|outputDir| - 1] == '/' {
      BasenameAfterSeparator(outputDir, name);
    } else {
      BasenameAfterSeparator(outputDir + "/", name);
    }
  }

  /** The output file sits directly in the output directory: one '/' is put
      between them unless the directory is empty or already ends in '/'. */
  lemma OutputPathInDirectory(outputDir: string, path: string)
    ensures if outputDir == "" || outputDir[|outputDir| - 1] == '/'
      then OutputPath(outputDir, path) == outputDir + (Stem(path) + ".txt")
      else OutputPath(outputDir, path) == (outputDir + "/") + (Stem(path) + ".txt")
  {
    StemParts(path);
    TxtNameHasNoSlash(Stem(path));
  }

  lemma TxtNameHasNoSlash(stem: string)
    requires '/' !in stem
    ensures '/' !in stem + ".txt" && (stem + ".txt")[0] != '/'
  {
    var name := stem + ".txt";
    forall c | c in name ensures c != '/' {
      assert c in stem || c in ".txt";
    }
    assert name[0] in name;
  }

  /** A final component whose last '.' is at `d`, with something other than
      a dot before it, is split at `d`. */
  lemma SplitExtAt(base: string, d: nat, k: nat)
    requires '/' !in base
    requires d < |base| && base[d] == '.' && forall j :: d < j < |base| ==> base[j] != '.'
    requires k < d && base[k] != '.'
    ensures SplitExt(base) == (base[..d], base[d..])
  {
    assert LastIndexOf(base, '.') == d;
    assert LastIndexOf(base, '/') == -1;
  }

  lemma NotInConcat(a: string, b: string, c: char)
    requires c !in a && c !in b
    ensures c !in a + b
  {
    forall x | x in a + b ensures x != c {
      assert x in a || x in b;
    }
  }

  lemma LastDotOfExtension(name: string, ext: string)
    requires |ext| >= 1 && ext[0] == '.' && '.' !in ext[1..]
    ensures (name + ext)[|name|] == '.'
    ensures forall j :: |name| < j < |name + ext| ==> (name + ext)[j] != '.'
  {
    forall j | |name| < j < |name + ext| ensures (name + ext)[j] != '.' {
      assert (name + ext)[j] == ext[1..][j - |name| - 1];
    }
  }

  /** The extension removed is the last one: for a final component made of a
      name (not only dots, no '/') and an extension such as ".pdf", the stem
      is that name. */
  lemma StemDropsLastExtension(prefix: string, name: string, ext: string, k: nat)
    requires prefix == "" || prefix[|prefix| - 1] == '/'
    requires '/' !in name && k < |name| && name[k] != '.'
    requires |ext| >= 1 && ext[0] == '.' && '.' !in ext[1..] && '/' !in ext
    ensures Stem(prefix + name + ext) == name
  {
    var base := name + ext;
    NotInConcat(name, ext, '/');
    assert prefix + name + ext == prefix + base;
    BasenameAfterSeparator(prefix, base);
    SplitExtOfName(name, ext, k);
  }

  lemma SplitExtOfName(name: string, ext: string, k: nat)
    requires '/' !in name && k < |name| && name[k] != '.'
    requires |ext| >= 1 && ext[0] == '.' && '.' !in ext[1..] && '/' !in ext
    ensures SplitExt(name + ext).0 == name
  {
    var base := name + ext;
    NotInConcat(name, ext, '/');
    LastDotOfExtension(name, ext);
    SplitExtAt(base, |name|, k);
    assert base[..|name|] == name;
  }

  /** The stem of `<dir>/<name>.pdf` is `<name>`. */
  lemma PdfStem(dir: string, name: string, k: nat)
    requires '/' !in name && k < |name| && name[k] != '.'
    ensures Stem(dir + "/" + name + ".pdf") == name
  {
    var prefix, ext := dir + "/", ".pdf";
    assert ext[1..] == "pdf";
    assert dir + "/" + name + ".pdf" == prefix + name + ext;
    StemDropsLastExtension(prefix, name, ext, k);
  }

  /** The batch output of `<dir>/<name>.pdf`, in an output directory given
      without a trailing '/', is `<output dir>/<name>.txt`. */
  lemma OutputPathOfPdf(outputDir: string, dir: string, name: string, k: nat)
    requires outputDir != "" && outputDir[|outputDir| - 1] != '/'
    requires '/' !in name && k < |name| && name[k] != '.'
    ensures OutputPath(outputDir, dir + "/" + name + ".pdf") == outputDir + "/" + name + ".txt"
  {
    var path := dir + "/" + name + ".pdf";
    PdfStem(dir, name, k);
    OutputPathInDirectory(outputDir, path);
    assert OutputPath(outputDir, path) == (outputDir + "/") + (name + ".txt");
  }
}
