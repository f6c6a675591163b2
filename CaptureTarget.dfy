/**
  How the mod turns the path of a game entry into what it captures
  (WindowCapture.cs, CaptureCore.OnRetroarchOpenPrefix): the window name,
  whether the cursor is hidden, and the program to launch first.

  The file system is not modelled: whether a file exists and what it holds
  are inputs.  The System.IO.Path functions are modelled as on Windows, where
  '\\', '/' and the volume separator ':' end a file name.
 */
module CaptureTarget {
  import opened Text
  import opened Wrappers

  datatype CaptureRequest = CaptureRequest(windowName: string, hideCursor: bool, launchPath: string)

  const NoCursorFlag: string := "--no-cursor"
  const ByteOrderMark: string := "\U{FEFF}"

  predicate IsPathBoundary(c: char) {
    IsSep(c) || c == ':'
  }

  /** Index of the last '\\', '/' or ':' in path, or -1. */
  function LastBoundary(path: string): (k: int)
    ensures -1 <= k < |path|
    ensures k >= 0 ==> IsPathBoundary(path[k])
    ensures forall j :: k < j < |path| ==> !IsPathBoundary(path[j])
  {
    if path == [] then -1
    else if IsPathBoundary(path[|path| - 1]) then |path| - 1
    else LastBoundary(path[..|path| - 1])
  }

  /** Index of the last '.' in s, or -1. */
  function LastDot(s: string): (k: int)
    ensures -1 <= k < |s|
    ensures k >= 0 ==> s[k] == '.'
    ensures forall j :: k < j < |s| ==> s[j] != '.'
  {
    if s == [] then -1
    else if s[|s| - 1] == '.' then |s| - 1
    else LastDot(s[..|s| - 1])
  }

  /** Path.GetFileName: what follows the last boundary character. */
  function FileName(path: string): (r: string)
    ensures forall j :: 0 <= j < |r| ==> !IsPathBoundary(r[j])
    ensures EndsWith(path, r)
    ensures |r| < |path| ==> IsPathBoundary(path[|path| - |r| - 1])
  {
    var k := LastBoundary(path);
    assert path[|path| - |path[k + 1..]|..] == path[k + 1..];
    path[k + 1..]
  }

  /** A dot is in s exactly when LastDot finds one. */
  lemma DotIffLastDot(s: string)
    ensures '.' in s <==> LastDot(s) >= 0
  {
    if '.' in s {
      var i :| 0 <= i < |s| && s[i] == '.';
      assert LastDot(s) >= i;
    }
  }

  /**
    The last dot of a path lies in its file name exactly when the file name
    has one, and then it is the file name's last dot, shifted by the
    directory part.
   */
  lemma LastDotOfFileName(path: string)
    ensures var b := LastBoundary(path);
            var k := LastDot(FileName(path));
            (LastDot(path) > b <==> k >= 0) && (k >= 0 ==> LastDot(path) == b + 1 + k)
  {
    var b := LastBoundary(path);
    var name := FileName(path);
    var d := LastDot(path);
    var k := LastDot(name);
    assert name == path[b + 1..];
    if d > b {
      assert name[d - b - 1] == '.';
      assert forall j :: d - b - 1 < j < |name| ==> name[j] == path[j + b + 1];
      assert k == d - b - 1;
    } else {
      assert forall j :: 0 <= j < |name| ==> name[j] == path[j + b + 1];
    }
  }

  /** Nothing after the last dot is a dot. */
  lemma NoDotAfterLast(s: string)
    requires LastDot(s) >= 0
    ensures '.' !in s[LastDot(s) + 1..]
  {
    var t := s[LastDot(s) + 1..];
    assert forall i :: 0 <= i < |t| ==> t[i] == s[LastDot(s) + 1 + i];
  }

  /** A suffix of a name without boundaries has none either. */
  lemma SuffixChars(name: string, r: string)
    requires forall j :: 0 <= j < |name| ==> !IsPathBoundary(name[j])
    requires EndsWith(name, r) && forall j :: 1 <= j < |r| ==> r[j] != '.'
    ensures forall j :: 1 <= j < |r| ==> r[j] != '.' && !IsPathBoundary(r[j])
  {
    assert forall j :: 1 <= j < |r| ==> r[j] == name[|name| - |r| + j];
  }

  lemma EndsWithTrans(s: string, t: string, r: string)
    requires EndsWith(s, t) && EndsWith(t, r)
    ensures EndsWith(s, r)
  {
    assert s[|s| - |r|..] == s[|s| - |t|..][|t| - |r|..];
  }

  /** The extension of a file name: from its last '.' to the end, unless the dot is missing or last. */
  function NameExtension(name: string): (r: string)
    ensures r == [] <==> '.' !in name || name[|name| - 1] == '.'
    ensures r != [] ==> r[0] == '.' && |r| >= 2 && EndsWith(name, r)
    ensures r != [] ==> forall j :: 1 <= j < |r| ==> r[j] != '.'
  {
    var k := LastDot(name);
    DotIffLastDot(name);
    if k >= 0 && k < |name| - 1 then
      assert name[|name| - |name[k..]|..] == name[k..];
      assert forall j :: 1 <= j < |name[k..]| ==> name[k..][j] == name[k + j];
      name[k..]
    else []
  }

  /** The extension of the file name ends the path too. */
  lemma ExtensionEndsPath(path: string)
    ensures EndsWith(path, NameExtension(FileName(path)))
  {
    var r := NameExtension(FileName(path));
    if r != [] {
      EndsWithTrans(path, FileName(path), r);
    }
  }

  /** After its dot, the extension of the file name holds no dot and no boundary. */
  lemma ExtensionChars(path: string)
    ensures var r := NameExtension(FileName(path));
            forall j :: 1 <= j < |r| ==> r[j] != '.' && !IsPathBoundary(r[j])
  {
    var r := NameExtension(FileName(path));
    if r != [] {
      SuffixChars(FileName(path), r);
    }
  }

  /**
    Path.GetExtension: the scan back from the end stops at a '.' or a
    boundary, so the extension is that of the file name: from its last '.'
    to the end, dot included; empty when the file name has no dot or ends
    with one.
   */
  function Extension(path: string): (r: string)
    ensures r == [] <==> '.' !in FileName(path) || FileName(path)[|FileName(path)| - 1] == '.'
    ensures r != [] ==> r[0] == '.' && |r| >= 2 && EndsWith(FileName(path), r) && EndsWith(path, r)
    ensures r != [] ==> forall j :: 1 <= j < |r| ==> r[j] != '.' && !IsPathBoundary(r[j])
  {
    ExtensionEndsPath(path);
    ExtensionChars(path);
    NameExtension(FileName(path))
  }

  /** A file name up to its last '.', or all of it when it has none. */
  function Stem(name: string): (r: string)
    ensures |r| <= |name| && forall j :: 0 <= j < |r| ==> r[j] == name[j]
    ensures r == name <==> '.' !in name
    ensures r != name ==> name[|r|] == '.' && '.' !in name[|r| + 1..]
  {
    var k := LastDot(name);
    DotIffLastDot(name);
    if k == -1 then name
    else
      NoDotAfterLast(name);
      name[..k]
  }

  /** Path.GetFileNameWithoutExtension: the file name up to its last '.'. */
  function FileNameWithoutExtension(path: string): (r: string)
    ensures forall j :: 0 <= j < |r| ==> !IsPathBoundary(r[j])
    ensures r == FileName(path) <==> '.' !in FileName(path)
    ensures r != FileName(path) ==>
              StartsWith(FileName(path), r) && FileName(path)[|r|] == '.' && '.' !in FileName(path)[|r| + 1..]
  {
    var name := FileName(path);
    var r := Stem(name);
    assert r != name ==> name[..|r|] == r;
    r
  }

  lemma SliceJoin(s: string, i: nat, j: nat)
    requires i <= j <= |s|
    ensures s[..i] + s[i..][..j - i] == s[..j]
    ensures s[..i] + s[i..] == s
  {
    assert s[..i] + s[i..][..j - i] == s[..j];
    assert s[..i] + s[i..] == s;
  }

  lemma FileNameIsTail(path: string)
    ensures FileName(path) == path[LastBoundary(path) + 1..]
  {
  }

  lemma WithoutExtensionIsStem(path: string)
    ensures FileNameWithoutExtension(path) == Stem(FileName(path))
  {
  }

  lemma StemAtLastDot(name: string)
    requires LastDot(name) >= 0
    ensures Stem(name) == name[..LastDot(name)]
  {
  }

  lemma StemWithoutDot(name: string)
    requires LastDot(name) < 0
    ensures Stem(name) == name
  {
  }

  /** A prefix of s is its part before p followed by the next k - p elements. */
  lemma JoinAt(s: string, p: nat, k: nat, mid: string)
    requires p <= k <= |s| && mid == s[p..][..k - p]
    ensures s[..k] == s[..p] + mid
  {
    SliceJoin(s, p, k);
  }

  /** With a dot in the file name, Path.ChangeExtension keeps the path up to that dot. */
  lemma {:induction false} ChangeExtensionAtDot(path: string)
    requires LastDot(path) > LastBoundary(path)
    ensures path[..LastDot(path)] == path[..|path| - |FileName(path)|] + FileNameWithoutExtension(path)
  {
    FileNameIsTail(path);
    LastDotOfFileName(path);
    WithoutExtensionIsStem(path);
    StemAtLastDot(FileName(path));
    JoinAt(path, LastBoundary(path) + 1, LastDot(path), FileNameWithoutExtension(path));
  }

  /** Without one, it keeps the whole path. */
  lemma {:induction false} ChangeExtensionNoDot(path: string)
    requires LastDot(path) <= LastBoundary(path)
    ensures path == path[..|path| - |FileName(path)|] + FileNameWithoutExtension(path)
  {
    FileNameIsTail(path);
    LastDotOfFileName(path);
    WithoutExtensionIsStem(path);
    StemWithoutDot(FileName(path));
    SliceJoin(path, LastBoundary(path) + 1, LastBoundary(path) + 1);
  }

  /**
    Path.ChangeExtension(path, ext) for an ext that starts with '.': the
    scan from the end stops at the first '.' or boundary; the part before a
    dot found that way (or all of path) is followed by ext.  An empty path
    is returned unchanged.
   */
  function ChangeExtension(path: string, ext: string): (r: string)
    requires ext != [] && ext[0] == '.'
    ensures path == [] ==> r == []
    ensures path != [] ==> r == path[..|path| - |FileName(path)|] + FileNameWithoutExtension(path) + ext
  {
    if path == [] then [] else
    var k := LastDot(path);
    if k > LastBoundary(path) then
      ChangeExtensionAtDot(path);
      path[..k] + ext
    else
      ChangeExtensionNoDot(path);
      path + ext
  }

  /** .NET's ToLower on the extension; only the ASCII letters are folded. */
  predicate IsDescriptorExtension(ext: string) {
    Lower(ext) == ".win" || Lower(ext) == ".txt"
  }

  predicate IsLaunchableExtension(ext: string) {
    Lower(ext) == ".bat" || Lower(ext) == ".exe" || Lower(ext) == ".lnk" || Lower(ext) == ".url"
  }

  /**
    The text of a .win/.txt descriptor as the source keeps it: read (None
    when the file is missing or cannot be read, leaving the text empty),
    trimmed, and then every byte-order mark removed.
   */
  function DescriptorContent(fileText: Option<string>): string {
    match fileText
    case None => ""
    case Some(t) => RemoveAll(Trim(t), ByteOrderMark)
  }

  /** Strip one pair of surrounding double quotes, if the name has both and more than one character. */
  function Unquote(name: string): (r: string)
    ensures r == name || (|name| > 1 && name == "\"" + r + "\"")
    ensures r != name <==> |name| > 1 && name[0] == '"' && name[|name| - 1] == '"'
  {
    if |name| > 1 && name[0] == '"' && name[|name| - 1] == '"' then
      assert name == "\"" + name[1..|name| - 1] + "\"";
      name[1..|name| - 1]
    else name
  }

  /** Quoting and then unquoting gives back any name. */
  lemma UnquoteQuoted(s: string)
    ensures Unquote("\"" + s + "\"") == s
  {
    var q := "\"" + s + "\"";
    assert q[1..|q| - 1] == s;
  }

  /** The two edge cases: "" (two quotes) becomes empty, a lone quote stays. */
  lemma UnquoteEdges()
    ensures Unquote("\"\"") == ""
    ensures Unquote("\"") == "\""
  {
  }

  /**
    OnRetroarchOpenPrefix's choice of window name, cursor flag and launch
    path for the game entry at path; fileText is the descriptor's text when
    it exists, batExists whether the sibling .bat file exists.
   */
  function ResolveRequest(path: string, fileText: Option<string>, batExists: bool): (r: CaptureRequest)
    ensures IsDescriptorExtension(Extension(path)) ==>
              (r.hideCursor <==> Contains(DescriptorContent(fileText), NoCursorFlag)) &&
              r.windowName == Unquote(Trim(RemoveAll(DescriptorContent(fileText), NoCursorFlag))) &&
              r.launchPath == (if batExists then ChangeExtension(path, ".bat") else "")
    ensures !IsDescriptorExtension(Extension(path)) ==>
              !r.hideCursor &&
              r.windowName == Unquote(FileNameWithoutExtension(path)) &&
              r.launchPath == (if IsLaunchableExtension(Extension(path)) then path else "")
  {
    var extension := Extension(path);
    var content := DescriptorContent(fileText);
    var noCursor := Contains(content, NoCursorFlag);
    var kept := if noCursor then RemoveAll(content, NoCursorFlag) else content;
    RemoveAllChangesIffContains(content, NoCursorFlag);
    var request :=
      if IsDescriptorExtension(extension) then
        CaptureRequest(Trim(kept), noCursor, if batExists then ChangeExtension(path, ".bat") else "")
      else if IsLaunchableExtension(extension) then
        CaptureRequest(FileNameWithoutExtension(path), false, path)
      else
        CaptureRequest(FileNameWithoutExtension(path), false, "");
    request.(windowName := Unquote(request.windowName))
  }
}
