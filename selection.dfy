/** How the batch mode turns its argument into a list of input paths: the
    `.pdf` entries of a directory (its direct children that are files, or
    everything a recursive walk finds), or else the argument split on
    whitespace. The file system is given: a listing, or a walk. */
module Selection {
  import opened Paths

  /** str.lower on one character, for ASCII letters. */
  function LowerChar(c: char): char {
    if 'A' as int <= c as int <= 'Z' as int then (c as int + 32) as char else c
  }

  function Lower(s: string): (r: string)
    ensures |r| == |s| && forall i :: 0 <= i < |s| ==> r[i] == LowerChar(s[i])
  {
    seq(|s|, i requires 0 <= i < |s| => LowerChar(s[i]))
  }

  predicate EndsWith(s: string, suffix: string) {
    |suffix| <= |s| && s[|s| - |suffix|..] == suffix
  }

  /** The batch filter: the lower-cased name ends with ".pdf". */
  predicate IsPdfName(name: string) {
    EndsWith(Lower(name), ".pdf")
  }

  /** The filter is a case-insensitive match of the last four characters. */
  lemma IsPdfNameCaseInsensitive(name: string)
    ensures IsPdfName(name) <==>
      |name| >= 4 &&
      var n := |name|;
      name[n - 4] == '.' && name[n - 3] in "pP" && name[n - 2] in "dD" && name[n - 1] in "fF"
  {
    var n := |name|;
    if n >= 4 {
      var tail := Lower(name)[n - 4..];
      assert tail == [LowerChar(name[n - 4]), LowerChar(name[n - 3]), LowerChar(name[n - 2]), LowerChar(name[n - 1])];
    }
  }

  /** One directory entry: its name, and whether it is a regular file. */
  datatype Entry = Entry(name: string, isFile: bool)

  /** The non-recursive selection: the entries of `dir` that are files and
      whose name passes the filter, joined to `dir`, in listing order. */
  function ListedPdfs(dir: string, listing: seq<Entry>): (paths: seq<string>)
    ensures |paths| <= |listing|
  {
    if listing == [] then []
    else
      var e := listing[0];
      (if e.isFile && IsPdfName(e.name) then [JoinPath(dir, e.name)] else []) + ListedPdfs(dir, listing[1..])
  }

  /** A path is selected exactly when some file entry with a `.pdf` name
      joins to it. */
  lemma {:induction false} ListedPdfsMembers(dir: string, listing: seq<Entry>, path: string)
    ensures path in ListedPdfs(dir, listing) <==>
      exists e :: e in listing && e.isFile && IsPdfName(e.name) && path == JoinPath(dir, e.name)
  {
    if listing != [] {
      ListedPdfsMembers(dir, listing[1..], path);
      assert forall e :: e in listing <==> e == listing[0] || e in listing[1..];
    }
  }

  /** One step of a directory walk: a directory and the names of the
      non-directory entries in it. */
  datatype WalkStep = WalkStep(root: string, files: seq<string>)

  /** The `.pdf` names among `names`, joined to `root`, in order. Defined from
      the last name, which the inner loop appends last. */
  function PdfsIn(root: string, names: seq<string>): seq<string> {
    if names == [] then []
    else
      var name := names[|names| - 1];
      PdfsIn(root, names[..|names| - 1]) + (if IsPdfName(name) then [JoinPath(root, name)] else [])
  }

  /** Everything the recursive selection collects over the walk, in walk order. */
  function WalkedPdfs(walk: seq<WalkStep>): seq<string> {
    if walk == [] then []
    else
      var step := walk[|walk| - 1];
      WalkedPdfs(walk[..|walk| - 1]) + PdfsIn(step.root, step.files)
  }

  /** The recursive selection, as the nested loops over the walk collect it. */
  method CollectWalked(walk: seq<WalkStep>) returns (pdfFiles: seq<string>)
    ensures pdfFiles == WalkedPdfs(walk)
  {
    pdfFiles := [];
    for i := 0 to |walk|
      invariant pdfFiles == WalkedPdfs(walk[..i])
    {
      var step := walk[i];
      assert walk[..i + 1][..i] == walk[..i];
      ghost var before := pdfFiles;
      for j := 0 to |step.files|
        invariant pdfFiles == before + PdfsIn(step.root, step.files[..j])
      {
        var file := step.files[j];
        assert step.files[..j + 1][..j] == step.files[..j];
        if IsPdfName(file) {
          pdfFiles := pdfFiles + [JoinPath(step.root, file)];
        }
      }
      assert step.files[..|step.files|] == step.files;
    }
    assert walk[..|walk|] == walk;
  }

  lemma {:induction false} PdfsInMembers(root: string, names: seq<string>, path: string)
    ensures path in PdfsIn(root, names) <==> exists name :: name in names && IsPdfName(name) && path == JoinPath(root, name)
  {
    if names != [] {
      var front := names[..|names| - 1];
      PdfsInMembers(root, front, path);
      assert forall name :: name in names <==> name in front || name == names[|names| - 1];
    }
  }

  /** A path is collected exactly when some step of the walk has a `.pdf`
      name that joins to it under that step's directory. */
  lemma {:induction false} WalkedPdfsMembers(walk: seq<WalkStep>, path: string)
    ensures path in WalkedPdfs(walk) <==>
      exists step, name :: step in walk && name in step.files && IsPdfName(name) && path == JoinPath(step.root, name)
  {
    if walk != [] {
      var front, last := walk[..|walk| - 1], walk[|walk| - 1];
      WalkedPdfsMembers(front, path);
      PdfsInMembers(last.root, last.files, path);
      assert forall step :: step in walk <==> step in front || step == last;
    }
  }

  /** The characters str.split() without arguments treats as whitespace. */
  predicate IsSpace(c: char) {
    var n := c as int;
    n == 0x20 || 0x09 <= n <= 0x0D || 0x1C <= n <= 0x1F || n == 0x85 || n == 0xA0 || n == 0x1680 ||
    0x2000 <= n <= 0x200A || n == 0x2028 || n == 0x2029 || n == 0x202F || n == 0x205F || n == 0x3000
  }

  predicate IsWord(w: string) {
    w != [] && forall c :: c in w ==> !IsSpace(c)
  }

  /** The words of `s`, continuing a word whose characters so far are `word`.
      Runs of whitespace separate words; leading and trailing whitespace
      yield nothing. */
  function SplitFrom(s: string, word: string): (words: seq<string>)
    requires forall c :: c in word ==> !IsSpace(c)
    ensures forall w :: w in words ==> IsWord(w)
    decreases |s|
  {
    if s == [] then
      if word == [] then [] else [word]
    else if IsSpace(s[0]) then
      (if word == [] then [] else [word]) + SplitFrom(s[1..], [])
    else
      SplitFrom(s[1..], word + [s[0]])
  }

  /** str.split(): the whitespace-separated words of `s`. */
  function Split(s: string): (words: seq<string>)
    ensures forall w :: w in words ==> IsWord(w)
  {
    SplitFrom(s, [])
  }

  /** The words separated by single spaces. */
  function JoinWords(words: seq<string>): string {
    if words == [] then "" else if |words| == 1 then words[0] else words[0] + " " + JoinWords(words[1..])
  }

  function Concat(words: seq<string>): string {
    if words == [] then "" else words[0] + Concat(words[1..])
  }

  /** `s` without its whitespace characters. */
  function NonSpace(s: string): string {
    if s == [] then "" else (if IsSpace(s[0]) then "" else [s[0]]) + NonSpace(s[1..])
  }

  lemma {:induction false} ConcatAppend(a: seq<string>, b: seq<string>)
    ensures Concat(a + b) == Concat(a) + Concat(b)
  {
    if a == [] {
      assert a + b == b;
    } else {
      assert (a + b)[1..] == a[1..] + b;
      ConcatAppend(a[1..], b);
    }
  }

  lemma {:induction false} SplitFromConcat(s: string, word: string)
    requires forall c :: c in word ==> !IsSpace(c)
    ensures Concat(SplitFrom(s, word)) == word + NonSpace(s)
    decreases |s|
  {
    if s == [] {
      assert word + NonSpace(s) == word;
    } else if IsSpace(s[0]) {
      var first: seq<string> := if word == [] then [] else [word];
      ConcatAppend(first, SplitFrom(s[1..], []));
      SplitFromConcat(s[1..], []);
      assert Concat(first) == word;
    } else {
      SplitFromConcat(s[1..], word + [s[0]]);
    }
  }

  /** Splitting loses and invents nothing: the words, put back together,
      are the argument with its whitespace removed. */
  lemma SplitKeepsNonSpace(s: string)
    ensures Concat(Split(s)) == NonSpace(s)
  {
    SplitFromConcat(s, []);
  }

  lemma {:induction false} SplitFromWord(w: string, rest: string, word: string)
    requires forall c :: c in word ==> !IsSpace(c)
    requires forall c :: c in w ==> !IsSpace(c)
    ensures SplitFrom(w + rest, word) == SplitFrom(rest, word + w)
    decreases |w|
  {
    if w == [] {
      assert w + rest == rest && word + w == word;
    } else {
      assert (w + rest)[0] == w[0] && (w + rest)[1..] == w[1..] + rest;
      assert w[0] in w;
      SplitFromWord(w[1..], rest, word + [w[0]]);
      assert word + [w[0]] + w[1..] == word + w;
    }
  }

  /** Words joined with single spaces split back into the same words. */
  lemma {:induction false} SplitJoinWords(words: seq<string>)
    requires forall w :: w in words ==> IsWord(w)
    ensures Split(JoinWords(words)) == words
  {
    if words != [] {
      var w := words[0];
      assert w in words;
      if |words| == 1 {
        assert w + "" == w && [] + w == w;
        SplitFromWord(w, "", []);
      } else {
        var rest := JoinWords(words[1..]);
        assert forall v :: v in words[1..] ==> v in words;
        SplitJoinWords(words[1..]);
        assert JoinWords(words) == w + (" " + rest);
        SplitFromWord(w, " " + rest, []);
        assert [] + w == w;
        assert (" " + rest)[1..] == rest;
      }
    }
  }

  /** Only whitespace (possibly nothing). */
  predicate AllSpace(s: string) {
    forall i :: 0 <= i < |s| ==> IsSpace(s[i])
  }

  /** The words with `seps[i]` between `words[i]` and `words[i + 1]`. */
  function Interleave(words: seq<string>, seps: seq<string>): string
    requires |seps| + 1 == |words|
  {
    if |words| == 1 then words[0] else words[0] + seps[0] + Interleave(words[1..], seps[1..])
  }

  /** A run of whitespace ends the word being read and is otherwise skipped. */
  lemma {:induction false} SplitFromSpaces(sp: string, rest: string, word: string)
    requires forall c :: c in word ==> !IsSpace(c)
    requires sp != "" && AllSpace(sp)
    ensures SplitFrom(sp + rest, word) == (if word == [] then [] else [word]) + SplitFrom(rest, [])
    decreases |sp|
  {
    var s := sp + rest;
    assert s[0] == sp[0] && s[1..] == sp[1..] + rest;
    if |sp| > 1 {
      SplitFromSpaces(sp[1..], rest, []);
    } else {
      assert sp[1..] + rest == rest;
    }
  }

  /** A string of whitespace only has no words. */
  lemma NoWordsInSpace(sp: string)
    requires AllSpace(sp)
    ensures SplitFrom(sp, []) == []
  {
    if sp != "" {
      assert sp + "" == sp;
      SplitFromSpaces(sp, "", []);
    }
  }

  /** The last word, followed by trailing whitespace, is one word. */
  lemma LastWord(w: string, tail: string)
    requires IsWord(w) && AllSpace(tail)
    ensures SplitFrom(w + tail, []) == [w]
  {
    SplitFromWord(w, tail, []);
    assert [] + w == w;
    if tail != "" {
      assert tail + "" == tail;
      SplitFromSpaces(tail, "", w);
    }
  }

  lemma {:induction false} SplitInterleave(words: seq<string>, seps: seq<string>, tail: string)
    requires |seps| + 1 == |words|
    requires forall i :: 0 <= i < |words| ==> IsWord(words[i])
    requires forall i :: 0 <= i < |seps| ==> seps[i] != "" && AllSpace(seps[i])
    requires AllSpace(tail)
    ensures SplitFrom(Interleave(words, seps) + tail, []) == words
    decreases |words|
  {
    var w := words[0];
    if |words| == 1 {
      LastWord(w, tail);
    } else {
      var sep, rest := seps[0], Interleave(words[1..], seps[1..]) + tail;
      assert Interleave(words, seps) + tail == w + (sep + rest);
      assert IsWord(w);
      SplitFromWord(w, sep + rest, []);
      assert [] + w == w;
      SplitFromSpaces(sep, rest, w);
      SplitInterleave(words[1..], seps[1..], tail);
      assert words == [w] + words[1..];
    }
  }

  /** str.split() undoes any whitespace layout: words separated by non-empty
      runs of whitespace, with optional leading and trailing whitespace,
      split back into exactly those words. */
  lemma SplitAnySpacing(lead: string, words: seq<string>, seps: seq<string>, tail: string)
    requires |seps| + 1 == |words|
    requires forall i :: 0 <= i < |words| ==> IsWord(words[i])
    requires forall i :: 0 <= i < |seps| ==> seps[i] != "" && AllSpace(seps[i])
    requires AllSpace(lead) && AllSpace(tail)
    ensures Split(lead + Interleave(words, seps) + tail) == words
  {
    var body := Interleave(words, seps) + tail;
    assert lead + Interleave(words, seps) + tail == lead + body;
    SplitInterleave(words, seps, tail);
    if lead != "" {
      SplitFromSpaces(lead, body, []);
    } else {
      assert lead + body == body;
    }
  }

  /** A whitespace-only argument (the empty one included) has no words. */
  lemma SplitAllSpace(s: string)
    requires AllSpace(s)
    ensures Split(s) == []
  {
    NoWordsInSpace(s);
  }
}
