/** The two operations of Rust's `std::path::Path` that the filter relies on,
    for `/`-separated paths: `extension` (used to select diagrams) and
    `with_extension` (used to name the rendered file).

    A path splits at its last `/` into a directory part (up to and including
    that `/`) and a final component. The final component is the file name
    unless it is empty, `.` or `..`. The extension is the text after the last
    `.` of the file name; there is none when the name has no `.` or when that
    `.` is its first character. The stem is the file name without
    `.extension`. */
module Paths {
  import opened Common

  /** Index of the last occurrence of `c` in `s`, or -1. */
  function LastIndexOf(s: string, c: char): (r: int)
    ensures -1 <= r < |s|
    ensures r >= 0 ==> s[r] == c
    ensures forall i :: r < i < |s| ==> s[i] != c
  {
    if |s| == 0 then -1
    else if s[|s| - 1] == c then |s| - 1
    else LastIndexOf(s[..|s| - 1], c)
  }

  /** Everything up to and including the last `/` (empty when there is none). */
  function Directory(p: Path): (d: Path)
    ensures d == [] || d[|d| - 1] == '/'
  {
    p[..LastIndexOf(p, '/') + 1]
  }

  /** The text after the last `/`. */
  function FinalComponent(p: Path): (c: string)
    ensures Directory(p) + c == p
    ensures '/' !in c
  {
    NoneAfterLast(p, '/');
    p[LastIndexOf(p, '/') + 1..]
  }

  function FileName(p: Path): Option<string>
  {
    var c := FinalComponent(p);
    if c == [] || c == "." || c == ".." then None else Some(c)
  }

  /** Where `name` splits into stem and extension: the index of its last `.`
      when that is not the first character, otherwise -1. */
  function DotIndex(name: string): (d: int)
    ensures d == -1 || 0 < d < |name|
    ensures d > 0 ==> name[d] == '.' && '.' !in name[d + 1..]
    ensures d == -1 ==> forall k :: 0 < k < |name| ==> name[k] != '.'
  {
    var k := LastIndexOf(name, '.');
    if k <= 0 then -1 else k
  }

  function Stem(name: string): string
  {
    var d := DotIndex(name);
    if d == -1 then name else name[..d]
  }

  /** `Path::extension`. */
  function Extension(p: Path): Option<string>
  {
    match FileName(p)
    case None => None
    case Some(name) =>
      var d := DotIndex(name);
      if d == -1 then None else Some(name[d + 1..])
  }

  /** What `with_extension` appends to the stem: nothing for an empty
      extension, otherwise `.` and the extension. */
  function Suffix(ext: string): (s: string)
    ensures '/' !in ext ==> '/' !in s
  {
    if ext == [] then [] else "." + ext
  }

  /** `Path::with_extension`: everything after the stem of the file name is
      dropped and the suffix of `ext` is appended. A path without a file
      name is returned as it is. */
  function WithExtension(p: Path, ext: string): Path
  {
    match FileName(p)
    case None => p
    case Some(name) => Directory(p) + (Stem(name) + Suffix(ext))
  }

  /** Whether `e` can be an extension that `with_extension` sets and
      `extension` then reads back: non-empty, without `.` or `/`. */
  predicate PlainExtension(e: string)
  {
    e != [] && '.' !in e && '/' !in e
  }

  lemma NoneAfterLast(s: string, c: char)
    ensures c !in s[LastIndexOf(s, c) + 1..]
  {
    var k := LastIndexOf(s, c);
    var t := s[k + 1..];
    forall j | 0 <= j < |t| ensures t[j] != c {
      assert t[j] == s[k + 1 + j];
    }
  }

  lemma LastIndexOfIs(s: string, c: char, k: int)
    requires 0 <= k < |s| && s[k] == c
    requires forall i :: k < i < |s| ==> s[i] != c
    ensures LastIndexOf(s, c) == k
  {
  }

  lemma LastIndexOfNone(s: string, c: char)
    requires c !in s
    ensures LastIndexOf(s, c) == -1
  {
  }

  /** The file name of `dir + name` is `name`, when `dir` is a directory part
      (empty or ending in `/`) and `name` is a file name. */
  lemma {:induction false} SplitAt(dir: Path, name: string)
    requires dir == [] || dir[|dir| - 1] == '/'
    requires '/' !in name
    ensures Directory(dir + name) == dir
    ensures FinalComponent(dir + name) == name
  {
    var p := dir + name;
    if dir == [] {
      assert p == name;
      LastIndexOfNone(p, '/');
    } else {
      forall i | |dir| - 1 < i < |p| ensures p[i] != '/' {
        assert p[i] == name[i - |dir|];
      }
      LastIndexOfIs(p, '/', |dir| - 1);
      assert p[..|dir|] == dir;
    }
  }

  /** The stem of a file name is never empty and holds no `/`. */
  lemma StemOfName(name: string)
    requires name != [] && '/' !in name
    ensures Stem(name) != [] && '/' !in Stem(name)
  {
    var d := DotIndex(name);
    if d != -1 {
      assert name[0] in name[..d];
    }
  }

  /** A file name has no `/` and is not empty. */
  lemma FileNameOf(p: Path)
    requires FileName(p).Some?
    ensures FileName(p).value == FinalComponent(p)
    ensures FileName(p).value != [] && '/' !in FileName(p).value
  {
  }

  /** The file name that `with_extension` produces: the old stem, a `.`, and
      the new extension; its extension is the new one and its stem the old. */
  lemma {:induction false} RenamedFileName(stem: string, ext: string)
    requires stem != [] && '/' !in stem
    requires PlainExtension(ext)
    ensures DotIndex(stem + Suffix(ext)) == |stem|
    ensures Stem(stem + Suffix(ext)) == stem
    ensures (stem + Suffix(ext))[|stem| + 1..] == ext
  {
    var n := stem + Suffix(ext);
    assert Suffix(ext) == "." + ext;
    assert n[|stem|] == '.';
    assert n[|stem| + 1..] == ext;
    DotAt(n, |stem|);
    assert n[..|stem|] == stem;
  }

  /** A `.` after the first character with no `.` after it is where the
      name splits. */
  lemma DotAt(name: string, k: int)
    requires 0 < k < |name| && name[k] == '.' && '.' !in name[k + 1..]
    ensures DotIndex(name) == k
  {
    forall i | k < i < |name| ensures name[i] != '.' {
      assert name[i] == name[k + 1..][i - k - 1];
    }
    LastIndexOfIs(name, '.', k);
  }

  /** The path `with_extension` produces from a path with a file name, split
      into its directory and its file name. */
  lemma {:induction false} WithExtensionSplit(p: Path, ext: string)
    requires FileName(p).Some?
    requires '/' !in ext
    ensures var name := Stem(FileName(p).value) + Suffix(ext);
            && '/' !in name
            && WithExtension(p, ext) == Directory(p) + name
            && Directory(WithExtension(p, ext)) == Directory(p)
            && FinalComponent(WithExtension(p, ext)) == name
  {
    FileNameOf(p);
    var name := FileName(p).value;
    StemOfName(name);
    var tail := Stem(name) + Suffix(ext);
    assert '/' !in tail;
    SplitAt(Directory(p), tail);
  }

  /** `with_extension` keeps the directory of the path. */
  lemma WithExtensionKeepsDirectory(p: Path, ext: string)
    requires '/' !in ext
    ensures Directory(WithExtension(p, ext)) == Directory(p)
  {
    if FileName(p).Some? {
      WithExtensionSplit(p, ext);
    }
  }

  /** Setting a plain extension on a path that has a file name gives a path
      with the same directory and stem whose extension is the new one. */
  lemma {:induction false} WithExtensionSetsExtension(p: Path, ext: string)
    requires FileName(p).Some?
    requires PlainExtension(ext)
    ensures FileName(WithExtension(p, ext)).Some?
    ensures Directory(WithExtension(p, ext)) == Directory(p)
    ensures Stem(FileName(WithExtension(p, ext)).value) == Stem(FileName(p).value)
    ensures Extension(WithExtension(p, ext)) == Some(ext)
  {
    FileNameOf(p);
    var stem := Stem(FileName(p).value);
    StemOfName(FileName(p).value);
    WithExtensionSplit(p, ext);
    RenamedFileName(stem, ext);
    var q := WithExtension(p, ext);
    var n := stem + Suffix(ext);
    LongComponent(q);
    ExtensionAt(q);
  }

  /** A final component of three or more characters is a file name. */
  lemma LongComponent(q: Path)
    requires |FinalComponent(q)| >= 3
    ensures FileName(q) == Some(FinalComponent(q))
  {
  }

  /** The extension of `dir + name`, for a directory part `dir` and a file
      name `name` of three or more characters, is read from `name` alone. */
  lemma ExtensionOfName(dir: Path, name: string)
    requires dir == [] || dir[|dir| - 1] == '/'
    requires '/' !in name && |name| >= 3
    ensures Extension(dir + name) == if DotIndex(name) == -1 then None else Some(name[DotIndex(name) + 1..])
  {
    SplitAt(dir, name);
    LongComponent(dir + name);
  }

  /** The extension of a path is read from its file name at the dot index. */
  lemma ExtensionAt(q: Path)
    requires FileName(q).Some? && DotIndex(FileName(q).value) > 0
    ensures Extension(q) == Some(FileName(q).value[DotIndex(FileName(q).value) + 1..])
  {
  }

  /** Setting back the extension a path already has gives the same path. */
  lemma {:induction false} WithOwnExtension(p: Path)
    requires Extension(p).Some? && Extension(p).value != []
    ensures WithExtension(p, Extension(p).value) == p
  {
    ExtensionParts(p);
    FileNameOf(p);
    var name := FileName(p).value;
    StemAndSuffix(name);
    assert WithExtension(p, Extension(p).value) == Directory(p) + name;
  }

  /** A path with an extension has a file name, split at its dot index. */
  lemma ExtensionParts(p: Path)
    requires Extension(p).Some?
    ensures FileName(p).Some? && DotIndex(FileName(p).value) > 0
    ensures Extension(p).value == FileName(p).value[DotIndex(FileName(p).value) + 1..]
  {
  }

  /** A file name with an extension is its stem followed by the suffix of
      that extension. */
  lemma StemAndSuffix(name: string)
    requires 0 < DotIndex(name) < |name| - 1
    ensures Stem(name) + Suffix(name[DotIndex(name) + 1..]) == name
  {
    RejoinName(name, DotIndex(name));
  }

  /** A name is its part before a `.`, that `.`, and its part after. */
  lemma RejoinName(name: string, d: int)
    requires 0 <= d < |name| && name[d] == '.'
    ensures name[..d] + ("." + name[d + 1..]) == name
  {
    assert name == name[..d] + name[d..];
    assert name[d..] == [name[d]] + name[d + 1..];
  }
}
