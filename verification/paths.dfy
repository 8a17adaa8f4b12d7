/** File-system paths as segment sequences. An absolute path is the list of
    names below the root; `Relative` is `path.relative` on normalised
    absolute paths, and `SlashPath` is the
    `path.relative(root, file).replace(/\\/g, '/')` the scanners store. */
module Paths {
  import opened Text

  type Path = seq<string>

  /** `path.resolve` of an absolute path: `..` climbs (never above the
      root), `.` and empty segments stay, every other segment descends. */
  function Resolve(base: Path, rel: seq<string>): Path
    decreases |rel|
  {
    if |rel| == 0 then base
    else if rel[0] == "." || rel[0] == "" then Resolve(base, rel[1..])
    else if rel[0] == ".." then Resolve(if |base| > 0 then base[..|base| - 1] else base, rel[1..])
    else Resolve(base + [rel[0]], rel[1..])
  }

  function CommonPrefixLength(a: Path, b: Path): (k: nat)
    ensures k <= |a| && k <= |b|
    ensures a[..k] == b[..k]
    ensures k < |a| && k < |b| ==> a[k] != b[k]
  {
    if |a| == 0 || |b| == 0 || a[0] != b[0] then 0
    else 1 + CommonPrefixLength(a[1..], b[1..])
  }

  function Climb(n: nat): (r: seq<string>)
    ensures |r| == n
    ensures forall i :: 0 <= i < n ==> r[i] == ".."
  {
    if n == 0 then [] else [".."] + Climb(n - 1)
  }

  /** `path.relative(from, to)` as segments: climb out of what `from` does
      not share with `to`, then descend into the rest of `to`. */
  function Relative(from: Path, to: Path): seq<string>
  {
    var k := CommonPrefixLength(from, to);
    Climb(|from| - k) + to[k..]
  }

  /** The stored, slash-normalised form of a root-relative path, written
      with the platform separator `sep` before the backslash replacement. */
  function SlashPath(root: Path, file: Path, sep: char): string
  {
    ReplaceChar(Join(Relative(root, file), [sep]), '\\', '/')
  }

  /** `path.basename(p)`: the last segment, or "" for the root. */
  function BaseName(p: Path): string {
    if |p| == 0 then "" else p[|p| - 1]
  }

  function LastDot(s: string): (i: int)
    ensures -1 <= i < |s|
    ensures i >= 0 ==> s[i] == '.'
    ensures forall j :: i < j < |s| ==> s[j] != '.'
  {
    if |s| == 0 then -1
    else if s[|s| - 1] == '.' then |s| - 1
    else LastDot(s[..|s| - 1])
  }

  /** `path.basename(f, path.extname(f))` for a file name: everything
      before the last dot, unless that dot opens the name. */
  function StripExtension(name: string): string
  {
    var i := LastDot(name);
    if i > 0 then name[..i] else name
  }

  /** The path the string `"/" + segments joined by "/"` denotes. */
  function PosixString(p: Path): string {
    "/" + Join(p, "/")
  }

  predicate IsPlainSegment(s: string) {
    s != ".." && s != "." && s != ""
  }

  // ---------------------------------------------------------------------

  /** Inside the base, the relative path is what follows the base. */
  lemma RelativeBelow(from: Path, to: Path)
    requires from <= to
    ensures Relative(from, to) == to[|from|..]
  {
    var k := CommonPrefixLength(from, to);
    assert k == |from|;
  }

  lemma {:induction false} ResolvePlain(base: Path, rel: seq<string>)
    requires forall i :: 0 <= i < |rel| ==> IsPlainSegment(rel[i])
    ensures Resolve(base, rel) == base + rel
    decreases |rel|
  {
    if |rel| > 0 {
      ResolvePlain(base + [rel[0]], rel[1..]);
      assert base + [rel[0]] + rel[1..] == base + rel;
    }
  }

  lemma {:induction false} ResolveClimb(base: Path, n: nat, rest: seq<string>)
    requires n <= |base|
    ensures Resolve(base, Climb(n) + rest) == Resolve(base[..|base| - n], rest)
    decreases n
  {
    if n > 0 {
      assert (Climb(n) + rest)[0] == "..";
      assert (Climb(n) + rest)[1..] == Climb(n - 1) + rest;
      ResolveClimb(base[..|base| - 1], n - 1, rest);
      assert base[..|base| - 1][..|base| - 1 - (n - 1)] == base[..|base| - n];
    } else {
      assert Climb(0) + rest == rest;
      assert base[..|base| - 0] == base;
    }
  }

  /** `path.resolve(from, path.relative(from, to))` is `to` again, for a
      target made of ordinary names. */
  lemma ResolveRelative(from: Path, to: Path)
    requires forall i :: 0 <= i < |to| ==> IsPlainSegment(to[i])
    ensures Resolve(from, Relative(from, to)) == to
  {
    var k := CommonPrefixLength(from, to);
    ResolveClimb(from, |from| - k, to[k..]);
    assert from[..|from| - (|from| - k)] == to[..k];
    ResolvePlain(to[..k], to[k..]);
    assert to[..k] + to[k..] == to;
  }

  /** The stored path never contains a backslash. */
  lemma SlashPathHasNoBackslash(root: Path, file: Path, sep: char)
    ensures '\\' !in SlashPath(root, file, sep)
  {
    var s := SlashPath(root, file, sep);
    forall i | 0 <= i < |s| ensures s[i] != '\\' { }
  }

  /** A file inside a directory passes the string test
      `posix(file).startsWith(posix(dir))`. */
  lemma PosixPrefix(dir: Path, file: Path)
    requires dir <= file
    ensures StartsWith(PosixString(file), PosixString(dir))
  {
    if 0 < |dir| < |file| {
      assert file == dir + file[|dir|..];
      JoinConcat(dir, file[|dir|..], "/");
    } else if |dir| == |file| {
      assert dir == file;
    }
  }

  /** For a file inside the root, the stored path is its segments below the
      root, joined by the separator, backslashes turned into slashes. */
  lemma SlashPathBelow(root: Path, file: Path, sep: char)
    ensures root <= file ==> SlashPath(root, file, sep) == ReplaceChar(Join(file[|root|..], [sep]), '\\', '/')
  {
    if root <= file { RelativeBelow(root, file); }
  }

  /** A file name ending in the extension `ext` (a dot and letters) loses
      exactly that extension. */
  lemma StripKnownExtension(name: string, ext: string)
    requires |ext| >= 1 && ext[0] == '.' && '.' !in ext[1..]
    requires EndsWith(name, ext) && |name| > |ext|
    ensures StripExtension(name) == name[..|name| - |ext|]
  {
    var d := |name| - |ext|;
    assert name[d] == ext[0];
    forall j | d < j < |name| ensures name[j] != '.' {
      assert name[j] == ext[j - d] == ext[1..][j - d - 1];
    }
    var i := LastDot(name);
    assert i >= d;
    assert i == d;
  }
}
