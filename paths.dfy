/**
 * Unix paths as byte strings and the parts of `std::path::Path` the camera
 * uses: `file_name` and `extension`, and `extension().and_then(OsStr::to_str)`.
 */
module Paths {
  import opened Wrappers
  import opened Utf8

  type Path = seq<byte>

  const SLASH: byte := 0x2F
  const DOT: byte := 0x2E
  const CUR_DIR: seq<byte> := [DOT]
  const PARENT_DIR: seq<byte> := [DOT, DOT]

  /** Index just past the last separator of `p`, or 0 when `p` has none. */
  function LastSeparatorEnd(p: Path): (i: nat)
    ensures i <= |p| && SLASH !in p[i..]
    ensures 0 < i ==> p[i - 1] == SLASH
    decreases |p|
  {
    if p == [] then 0
    else if p[|p| - 1] == SLASH then |p|
    else LastSeparatorEnd(p[..|p| - 1])
  }

  /**
   * `Path::file_name`: the last component after separators and `.`
   * components are normalised away; None when that component is `..`
   * or there is none (the empty path, `/`, `.`).
   */
  function FileName(p: Path): (r: Option<seq<byte>>)
    ensures r.Some? ==> r.value != [] && SLASH !in r.value
    ensures r.Some? ==> r.value != CUR_DIR && r.value != PARENT_DIR
    ensures r.Some? ==> forall b :: b in r.value ==> b in p
    decreases |p|
  {
    if p == [] then None
    else if p[|p| - 1] == SLASH then FileName(p[..|p| - 1])
    else
      var i := LastSeparatorEnd(p);
      var last := p[i..];
      if last == CUR_DIR then FileName(p[..i])
      else if last == PARENT_DIR then None
      else Some(last)
  }

  /** Position of the last dot in a name, None when it has none. */
  function LastDot(name: seq<byte>): (r: Option<nat>)
    ensures r.Some? ==> r.value < |name| && name[r.value] == DOT && DOT !in name[r.value + 1..]
    ensures r.None? ==> DOT !in name
    decreases |name|
  {
    if name == [] then None
    else if name[|name| - 1] == DOT then Some(|name| - 1)
    else LastDot(name[..|name| - 1])
  }

  /**
   * The extension part of a file name: what follows its last dot, unless
   * that dot is the name's first byte (a "hidden" name such as `.bashrc`),
   * the name has no dot, or the name is `..`.
   */
  function NameExtension(name: seq<byte>): (r: Option<seq<byte>>)
    ensures r.Some? ==> DOT !in r.value && |r.value| < |name| - 1
    ensures r.Some? ==> name[|name| - |r.value| - 1] == DOT && name[|name| - |r.value|..] == r.value
    ensures r.None? <==> name == PARENT_DIR || forall k :: 0 < k < |name| ==> name[k] != DOT
  {
    if name == PARENT_DIR then None
    else
      match LastDot(name)
      case None => None
      case Some(i) => if i == 0 then None else Some(name[i + 1..])
  }

  /** `Path::extension`. */
  function Extension(p: Path): (r: Option<seq<byte>>)
    ensures r.Some? ==> DOT !in r.value && SLASH !in r.value
  {
    match FileName(p)
    case None => None
    case Some(name) => NameExtension(name)
  }

  /** `p.extension().and_then(OsStr::to_str)`: the extension as text, None if missing or not UTF-8. */
  function ExtensionText(p: Path): (r: Option<string>)
    ensures r.Some? ==> Extension(p).Some? && Decode(Extension(p).value) == r
    ensures Extension(p).None? ==> r.None?
  {
    match Extension(p)
    case None => None
    case Some(e) => Decode(e)
  }

  /** Appending bytes free of separators does not move the last separator. */
  lemma {:induction false} LastSeparatorEndAppend(p: Path, t: seq<byte>)
    requires SLASH !in t
    ensures LastSeparatorEnd(p + t) == LastSeparatorEnd(p)
    decreases |t|
  {
    if t != [] {
      var q := p + t;
      assert q[|q| - 1] == t[|t| - 1];
      assert q[..|q| - 1] == p + t[..|t| - 1];
      LastSeparatorEndAppend(p, t[..|t| - 1]);
    } else {
      assert p + t == p;
    }
  }

  /** A separator ends the path exactly where the path so far ends. */
  lemma SeparatorEnd(dir: Path)
    requires dir == [] || dir[|dir| - 1] == SLASH
    ensures LastSeparatorEnd(dir) == |dir|
  {
  }

  /** The file name of `dir/name` is `name`, for a normal component `name`. */
  lemma FileNameOfLast(dir: Path, name: seq<byte>)
    requires dir == [] || dir[|dir| - 1] == SLASH
    requires name != [] && SLASH !in name && name != CUR_DIR && name != PARENT_DIR
    ensures FileName(dir + name) == Some(name)
  {
    var q := dir + name;
    LastSeparatorEndAppend(dir, name);
    SeparatorEnd(dir);
    assert q[|q| - 1] == name[|name| - 1];
    assert q[|dir|..] == name;
  }

  /** A path ending in `..` has no file name. */
  lemma FileNameOfParent(dir: Path)
    requires dir == [] || dir[|dir| - 1] == SLASH
    ensures FileName(dir + PARENT_DIR) == None
  {
    var q := dir + PARENT_DIR;
    LastSeparatorEndAppend(dir, PARENT_DIR);
    SeparatorEnd(dir);
    assert q[|q| - 1] == DOT;
    assert q[|dir|..] == PARENT_DIR;
  }

  /** A trailing separator does not change the file name. */
  lemma FileNameTrailingSlash(p: Path)
    ensures FileName(p + [SLASH]) == FileName(p)
  {
    var q := p + [SLASH];
    assert q[|q| - 1] == SLASH && q[..|q| - 1] == p;
  }

  /** A trailing `/.` does not change the file name. */
  lemma FileNameTrailingCurDir(p: Path)
    ensures FileName(p + [SLASH, DOT]) == FileName(p)
  {
    var q := p + [SLASH, DOT];
    assert q == (p + [SLASH]) + CUR_DIR;
    LastSeparatorEndAppend(p + [SLASH], CUR_DIR);
    SeparatorEnd(p + [SLASH]);
    assert q[|q| - 1] == DOT;
    assert q[|p| + 1..] == CUR_DIR && q[..|p| + 1] == p + [SLASH];
    FileNameTrailingSlash(p);
  }

  /** A path whose final name is `stem.ext`, with a non-empty stem and extension, has extension `ext`. */
  lemma ExtensionAppend(p: Path, e: seq<byte>)
    requires p != [] && p[|p| - 1] != SLASH
    requires e != [] && DOT !in e && SLASH !in e
    ensures Extension(p + [DOT] + e) == Some(e)
  {
    var i := LastSeparatorEnd(p);
    assert i < |p|;
    var name := p[i..] + [DOT] + e;
    assert p + [DOT] + e == p[..i] + name by {
      assert p == p[..i] + p[i..];
    }
    assert SLASH !in name by {
      assert forall b :: b in name ==> b in p[i..] || b == DOT || b in e;
    }
    FileNameOfLast(p[..i], name);
    NameExtensionOfStem(p[i..], e);
  }

  /** The extension of the name `stem.ext`, with a non-empty stem and extension, is `ext`. */
  lemma NameExtensionOfStem(stem: seq<byte>, e: seq<byte>)
    requires stem != [] && e != [] && DOT !in e
    ensures NameExtension(stem + [DOT] + e) == Some(e)
  {
    var name := stem + [DOT] + e;
    assert name[|stem|] == DOT && |name| > 2;
    var j := LastDot(name).value;
    assert j == |stem|;
    assert name[|stem| + 1..] == e;
  }

  /** A path without any dot has no extension. */
  lemma DotlessHasNoExtension(p: Path)
    requires DOT !in p
    ensures Extension(p) == None
  {
    match FileName(p)
    case None =>
    case Some(name) =>
      assert DOT !in name;
  }

  /** A hidden name (`.name`, no further dot) under a directory, or alone, has no extension. */
  lemma HiddenNameHasNoExtension(dir: Path, n: seq<byte>)
    requires dir == [] || dir[|dir| - 1] == SLASH
    requires n != [] && DOT !in n && SLASH !in n
    ensures Extension(dir + [DOT] + n) == None
  {
    var name := [DOT] + n;
    assert dir + [DOT] + n == dir + name;
    assert name[1] == n[0] && name != PARENT_DIR;
    FileNameOfLast(dir, name);
    assert forall k :: 0 < k < |name| ==> name[k] == n[k - 1];
  }

  /** The extension text of `stem.ext` is `ext`, for an extension written without dots or separators. */
  lemma ExtensionTextAppend(p: Path, ext: string)
    requires p != [] && p[|p| - 1] != SLASH
    requires ext != [] && '.' !in ext && '/' !in ext
    ensures ExtensionText(p + [DOT] + Encode(ext)) == Some(ext)
  {
    var e := Encode(ext);
    if DOT in e {
      AsciiInEncode(ext, DOT);
      assert false;
    }
    if SLASH in e {
      AsciiInEncode(ext, SLASH);
      assert false;
    }
    assert e != [] by {
      assert |EncodeChar(ext[0])| >= 1;
    }
    ExtensionAppend(p, e);
    DecodeEncode(ext);
  }
}
