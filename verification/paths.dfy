/** The parts of `pathlib` the converter relies on, for resolved POSIX paths:
    a path's `name`, its `suffix` and `stem`, `str.lower`, and the set of
    supported image extensions. */
module Paths {

  /** The image extensions the converter accepts, in lower case. */
  const SupportedExt: set<string> := {".png", ".jpg", ".jpeg", ".bmp", ".gif", ".tif", ".tiff", ".webp"}

  /** The index of the last `c` in `s`, or -1 when there is none (Python's
      `str.rfind`). */
  function LastIndexOf(s: string, c: char): (i: int)
    ensures -1 <= i < |s|
    decreases |s|
  {
    if s == [] then -1
    else if s[|s| - 1] == c then |s| - 1
    else LastIndexOf(s[..|s| - 1], c)
  }

  /** `LastIndexOf` finds a `c`, and no `c` follows it. */
  lemma {:induction false} LastIndexOfSpec(s: string, c: char)
    ensures var i := LastIndexOf(s, c);
      && (0 <= i ==> s[i] == c)
      && (forall j :: i < j < |s| ==> s[j] != c)
    decreases |s|
  {
    if s != [] && s[|s| - 1] != c {
      var t := s[..|s| - 1];
      LastIndexOfSpec(t, c);
      assert forall j :: 0 <= j < |t| ==> t[j] == s[j];
    }
  }

  /** An occurrence of `c` with no later one is the last occurrence, and so
      is -1 when `c` does not occur. */
  lemma {:induction false} LastIndexOfIs(s: string, c: char, i: int)
    requires -1 <= i < |s|
    requires 0 <= i ==> s[i] == c
    requires forall j :: i < j < |s| ==> s[j] != c
    ensures LastIndexOf(s, c) == i
    decreases |s|
  {
    if s != [] && i < |s| - 1 {
      var t := s[..|s| - 1];
      LastIndexOfIs(t, c, i);
    }
  }

  /** `Path(p).name`: what follows the last `/`. */
  function Name(p: string): string {
    p[LastIndexOf(p, '/') + 1..]
  }

  /** The name is the part of the path after its last `/`: it holds no `/`
      and is preceded by one unless it is the whole path. */
  lemma NameIsLastComponent(p: string)
    ensures var n := Name(p);
      && (forall i :: 0 <= i < |n| ==> n[i] != '/')
      && |n| <= |p| && p[|p| - |n|..] == n
      && (|n| == |p| || p[|p| - |n| - 1] == '/')
  {
    LastIndexOfSpec(p, '/');
  }

  /** The position of the dot that starts a name's suffix, if it has one: the
      last dot, provided it is neither the first nor the last character. */
  function SuffixDot(name: string): (i: int)
    ensures i == -1 || (0 < i < |name| - 1 && name[i] == '.')
  {
    LastIndexOfSpec(name, '.');
    var i := LastIndexOf(name, '.');
    if 0 < i < |name| - 1 then i else -1
  }

  /** `Path(name).suffix`. */
  function Suffix(name: string): (s: string)
    ensures s == "" || (2 <= |s| && s[0] == '.')
  {
    var i := SuffixDot(name);
    if i == -1 then "" else name[i..]
  }

  /** A suffix holds one dot only, its first character. */
  lemma SuffixOneDot(name: string)
    ensures var s := Suffix(name); forall i :: 0 < i < |s| ==> s[i] != '.'
  {
    LastIndexOfSpec(name, '.');
  }

  /** A name has a suffix exactly when it holds a dot that is neither its
      first nor its last character and is followed by no other dot. */
  lemma SuffixIff(name: string)
    ensures Suffix(name) != "" <==>
      exists i :: 0 < i < |name| - 1 && name[i] == '.' && forall j :: i < j < |name| ==> name[j] != '.'
  {
    LastIndexOfSpec(name, '.');
    if exists i :: 0 < i < |name| - 1 && name[i] == '.' && forall j :: i < j < |name| ==> name[j] != '.' {
      var i :| 0 < i < |name| - 1 && name[i] == '.' && forall j :: i < j < |name| ==> name[j] != '.';
      LastIndexOfIs(name, '.', i);
    }
  }

  /** A stem followed by an extension such as `.png` splits back into the
      two. */
  lemma {:induction false} SuffixOfExt(stem: string, ext: string)
    requires |stem| > 0 && |ext| >= 2 && ext[0] == '.'
    requires forall j :: 0 < j < |ext| ==> ext[j] != '.'
    ensures Suffix(stem + ext) == ext
    ensures Stem(stem + ext) == stem
  {
    var name := stem + ext;
    assert name[|stem|..] == ext;
    LastIndexOfIs(name, '.', |stem|);
  }

  /** `Path(name).stem`. */
  function Stem(name: string): (s: string)
    ensures 0 < |s| || name == ""
  {
    var i := SuffixDot(name);
    if i == -1 then name else name[..i]
  }

  /** A name is its stem followed by its suffix. */
  lemma StemSuffix(name: string)
    ensures Stem(name) + Suffix(name) == name
  {
    var i := SuffixDot(name);
    if i != -1 {
      assert name[..i] + name[i..] == name;
    }
  }

  function LowerChar(c: char): char {
    if 'A' <= c <= 'Z' then (c as int - 'A' as int + 'a' as int) as char else c
  }

  /** `str.lower` on the ASCII letters; every other character is kept. */
  function Lower(s: string): string {
    seq(|s|, i requires 0 <= i < |s| => LowerChar(s[i]))
  }

  /** Lower-casing keeps the length, leaves no upper-case ASCII letter, maps
      each one to its lower-case partner and keeps every other character. */
  lemma LowerSpec(s: string)
    ensures var t := Lower(s);
      && |t| == |s|
      && (forall i :: 0 <= i < |s| ==> !('A' <= t[i] <= 'Z'))
      && (forall i :: 0 <= i < |s| && !('A' <= s[i] <= 'Z') ==> t[i] == s[i])
      && (forall i :: 0 <= i < |s| && 'A' <= s[i] <= 'Z' ==> t[i] as int == s[i] as int + 32)
  {
  }

  /** The test `Path(p).suffix.lower() in SUPPORTED_EXT`. */
  predicate Supported(p: string) {
    Lower(Suffix(Name(p))) in SupportedExt
  }

  /** `str(folder / fname)` for a directory entry `fname`. */
  function Join(dir: string, fname: string): string {
    if |dir| > 0 && dir[|dir| - 1] == '/' then dir + fname else dir + "/" + fname
  }

  /** A directory entry keeps its name, and so its suffix, when joined to
      its directory. */
  lemma JoinName(dir: string, fname: string)
    requires forall i :: 0 <= i < |fname| ==> fname[i] != '/'
    ensures Name(Join(dir, fname)) == Name(fname) == fname
  {
    var p := Join(dir, fname);
    assert p[|p| - |fname| - 1] == '/';
    assert p[|p| - |fname|..] == fname;
    LastIndexOfIs(p, '/', |p| - |fname| - 1);
    LastIndexOfIs(fname, '/', -1);
  }

  /** The name of the output file: `stem + ".svg"`. */
  function OutputName(p: string): string {
    Stem(Name(p)) + ".svg"
  }

  /** The output name has suffix `.svg` and keeps the input's stem. */
  lemma OutputNameParts(p: string)
    requires Stem(Name(p)) != ""
    ensures Suffix(OutputName(p)) == ".svg"
    ensures Stem(OutputName(p)) == Stem(Name(p))
  {
    var stem := Stem(Name(p));
    var out := OutputName(p);
    assert out[|stem|..] == ".svg";
    LastIndexOfIs(out, '.', |stem|);
  }

  /** The extension test ignores case. */
  lemma SupportedIgnoresCase()
    ensures Supported("/pics/Cat.PNG")
  {
    LastIndexOfIs("/pics/Cat.PNG", '/', 5);
    assert Name("/pics/Cat.PNG") == "Cat.PNG";
    LastIndexOfIs("Cat.PNG", '.', 3);
    assert Suffix("Cat.PNG") == ".PNG";
    assert Lower(".PNG") == ".png" by {
      assert forall i :: 0 <= i < 4 ==> Lower(".PNG")[i] == ".png"[i];
    }
  }

  /** Mixed case is accepted as well. */
  lemma SupportedMixedCase()
    ensures Supported("/pics/scan.Tiff")
  {
    LastIndexOfIs("/pics/scan.Tiff", '/', 5);
    assert Name("/pics/scan.Tiff") == "scan.Tiff";
    LastIndexOfIs("scan.Tiff", '.', 4);
    assert Suffix("scan.Tiff") == ".Tiff";
    assert Lower(".Tiff") == ".tiff" by {
      assert forall i :: 0 <= i < 5 ==> Lower(".Tiff")[i] == ".tiff"[i];
    }
  }

  /** The extension test follows `pathlib`: a dot-file such as `.png` has no
      suffix, and only the last suffix counts. */
  lemma UnsupportedNames()
    ensures !Supported("/pics/.png")
    ensures !Supported("/pics/cat.png.svg")
  {
    LastIndexOfIs("/pics/.png", '/', 5);
    assert Name("/pics/.png") == ".png";
    LastIndexOfIs(".png", '.', 0);
    assert Suffix(".png") == "";
    LastIndexOfIs("/pics/cat.png.svg", '/', 5);
    assert Name("/pics/cat.png.svg") == "cat.png.svg";
    LastIndexOfIs("cat.png.svg", '.', 7);
    assert Suffix("cat.png.svg") == ".svg";
    assert Lower(".svg") == ".svg" by {
      assert forall i :: 0 <= i < 4 ==> Lower(".svg")[i] == ".svg"[i];
    }
  }
}
