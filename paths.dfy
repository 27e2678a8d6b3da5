/**
 * The extension filter that decides which directory entries are tile images
 * (src-tauri/src/lib.rs:48, 225-226 and src-tauri/src/main.rs:57-58):
 * `path.extension()`, lowercased, must be one of "jpg", "jpeg", "png".
 * Paths are strings with '/' as the separator.
 */
module Paths {
  import opened Wrappers

  const SupportedExtensions: seq<string> := ["jpg", "jpeg", "png"]

  /** The last position of `c` in `s`, if any. */
  function LastIndexOf(s: string, c: char): (r: Option<nat>)
    ensures r.None? <==> c !in s
    ensures r.Some? ==> r.value < |s| && s[r.value] == c && c !in s[r.value + 1..]
  {
    if s == [] then None
    else if s[|s| - 1] == c then Some(|s| - 1)
    else
      var r := LastIndexOf(s[..|s| - 1], c);
      assert r.Some? ==> s[r.value + 1..] == s[..|s| - 1][r.value + 1..] + [s[|s| - 1]];
      r
  }

  /** `Path::file_name`: the text after the last separator. */
  function FileName(path: string): (name: string)
    ensures '/' !in name
    ensures name <= path || exists i :: 0 <= i < |path| && path[i] == '/' && name == path[i + 1..]
  {
    match LastIndexOf(path, '/')
    case None => path
    case Some(i) => path[i + 1..]
  }

  /**
   * `Path::extension` of a file name: the text after the last '.', except that
   * a name without a dot, a name whose only dot leads it (".bashrc") and the
   * name ".." have none.
   */
  function Extension(name: string): (ext: Option<string>)
    ensures ext.Some? ==> '.' in name && '.' !in ext.value
    ensures ext.Some? ==> exists i :: 0 < i < |name| && name[i] == '.' && ext.value == name[i + 1..]
  {
    if name == ".." then None
    else
      match LastIndexOf(name, '.')
      case None => None
      case Some(i) => if i == 0 then None else Some(name[i + 1..])
  }

  function LowerChar(c: char): char {
    if 'A' <= c <= 'Z' then (c as int + 32) as char else c
  }

  /**
   * `to_lowercase` on the ASCII letters. No other character lowercases into
   * a letter of "jpg", "jpeg" or "png", so membership below is unaffected.
   */
  function LowerAscii(s: string): (t: string)
    ensures |t| == |s|
    ensures forall i :: 0 <= i < |s| ==> t[i] == LowerChar(s[i])
  {
    seq(|s|, i requires 0 <= i < |s| => LowerChar(s[i]))
  }

  /** The filter of lib.rs:225-226 and main.rs:57-58. */
  predicate IsSupported(path: string) {
    match Extension(FileName(path))
    case None => false
    case Some(ext) => LowerAscii(ext) in SupportedExtensions
  }

  /** A kept path ends in a dot followed by "jpg", "jpeg" or "png" in any mix of cases. */
  lemma {:induction false} SupportedSuffix(path: string)
    requires IsSupported(path)
    ensures exists i :: 0 <= i < |path| && path[i] == '.' && LowerAscii(path[i + 1..]) in SupportedExtensions
  {
    ExtensionIsSuffix(path);
  }

  /** The extension of a path's file name is the tail of the path after one of its dots. */
  lemma {:induction false} ExtensionIsSuffix(path: string)
    requires Extension(FileName(path)).Some?
    ensures exists i :: 0 <= i < |path| && path[i] == '.' && path[i + 1..] == Extension(FileName(path)).value
  {
    var name := FileName(path);
    var k := FileNameStart(path);
    var ext := Extension(name).value;
    var j :| 0 < j < |name| && name[j] == '.' && ext == name[j + 1..];
    assert path[k + j] == '.';
    assert path[k..][j + 1..] == path[k + j + 1..];
  }

  /** Where the file name starts in the path. */
  lemma {:induction false} FileNameStart(path: string) returns (k: nat)
    ensures k <= |path| && FileName(path) == path[k..]
  {
    k := 0;
    if LastIndexOf(path, '/').Some? {
      k := LastIndexOf(path, '/').value + 1;
    } else {
      assert path[k..] == path;
    }
  }

  /**
   * For a file `stem.ext` inside any directory, with a non-empty stem, the
   * filter keeps it exactly when the extension lowercases to a supported one.
   */
  lemma {:induction false} SupportedFile(dir: string, stem: string, ext: string)
    requires |stem| > 0 && '/' !in stem && '/' !in ext && '.' !in ext
    ensures IsSupported(dir + "/" + stem + "." + ext) <==> LowerAscii(ext) in SupportedExtensions
  {
    var name := stem + "." + ext;
    assert dir + "/" + stem + "." + ext == dir + "/" + name;
    FileNameAfterSeparator(dir, name);
    if name == ".." {
      assert |ext| == 0;
    } else {
      ExtensionAfterDot(stem, ext);
    }
  }

  lemma {:induction false} FileNameAfterSeparator(dir: string, name: string)
    requires '/' !in name
    ensures FileName(dir + "/" + name) == name
  {
    LastAfter(dir, name, '/');
    assert (dir + "/" + name)[|dir| + 1..] == name;
  }

  lemma {:induction false} ExtensionAfterDot(stem: string, ext: string)
    requires |stem| > 0 && '.' !in ext && stem + "." + ext != ".."
    ensures Extension(stem + "." + ext) == Some(ext)
  {
    LastAfter(stem, ext, '.');
    assert (stem + "." + ext)[|stem| + 1..] == ext;
  }

  /** The last `c` of `pre + tail` lies at the end of `pre` when `pre` ends in `c` and `tail` holds none. */
  lemma {:induction false} LastAfter(pre: string, tail: string, c: char)
    requires c !in tail
    ensures LastIndexOf(pre + [c] + tail, c) == Some(|pre|)
  {
    var s := pre + [c] + tail;
    assert s[|pre|] == c;
    assert s[|pre| + 1..] == tail;
  }

  /** Upper-case spellings are kept: "photo.JPG" passes like "photo.jpg". */
  lemma {:induction false} UpperCaseKept(dir: string, stem: string)
    requires |stem| > 0 && '/' !in stem
    ensures IsSupported(dir + "/" + stem + "." + "JPG")
  {
    assert LowerAscii("JPG") == "jpg";
    assert LowerAscii("JPG") in SupportedExtensions;
    SupportedFile(dir, stem, "JPG");
  }

  /** Only the text after the last dot counts: "photo.jpg.gz" is dropped. */
  lemma {:induction false} InnerExtensionIgnored(dir: string, stem: string)
    requires |stem| > 0 && '/' !in stem
    ensures !IsSupported(dir + "/" + (stem + ".jpg") + "." + "gz")
  {
    assert LowerAscii("gz") == "gz";
    assert LowerAscii("gz") !in SupportedExtensions;
    assert '/' !in stem + ".jpg";
    SupportedFile(dir, stem + ".jpg", "gz");
  }

  /** A file whose name holds no dot, or only a leading one, is never a tile. */
  lemma {:induction false} NoExtensionNotSupported(path: string)
    requires '.' !in FileName(path) || LastIndexOf(FileName(path), '.') == Some(0)
    ensures !IsSupported(path)
  {
  }
}
