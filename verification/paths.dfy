/**
 `Path.GetFileName` and `Path.GetFileNameWithoutExtension` as .NET 7 and
 later define them. Which characters separate directories depends on the
 operating system the game runs on, so the platform is a parameter.
 `GetFileName` keeps what follows the last separator, but never anything
 of the path's root: on Windows that root can be a drive (`C:`, `C:\`), a
 UNC share (`\\server\share`) or a device prefix (`\\.\pipe\`, `\\?\C:\`).

 Source: the file names taken at Celeste.Mod.mm/Patches/Language.cs:93 and
 Celeste.Mod.mm/Patches/Language.cs:223.
 */
module Paths {
  import Text

  /** Where the game runs: Windows separates directories with `\` and `/`
      and has drive, UNC and device roots; Linux and macOS use `/` alone. */
  datatype Platform = Windows | Unix

  predicate IsSeparator(p: Platform, c: char) {
    c == '/' || (p == Windows && c == '\\')
  }

  predicate HasSeparator(p: Platform, path: string) {
    exists i :: 0 <= i < |path| && IsSeparator(p, path[i])
  }

  predicate IsDriveLetter(c: char) {
    'A' <= c <= 'Z' || 'a' <= c <= 'z'
  }

  /** A Windows path that starts with a drive, `C:` or `C:file`: with no
      separator after it, the drive is the whole root. */
  predicate HasDrive(p: Platform, path: string) {
    p == Windows && |path| >= 2 && path[1] == ':' && IsDriveLetter(path[0])
  }

  /** A Windows device path: `\\?\` or `\??\` with back slashes only, or
      `\\.\` and `\\?\` with either separator. */
  predicate IsDevice(p: Platform, path: string) {
    p == Windows && |path| >= 4
    && ((path[0] == '\\' && (path[1] == '\\' || path[1] == '?') && path[2] == '?' && path[3] == '\\')
        || (IsSeparator(p, path[0]) && IsSeparator(p, path[1]) && (path[2] == '.' || path[2] == '?')
            && IsSeparator(p, path[3])))
  }

  /** A device path naming a UNC share, `\\?\UNC\server\share`. */
  predicate IsDeviceUnc(p: Platform, path: string) {
    |path| >= 8 && IsDevice(p, path) && IsSeparator(p, path[7])
    && path[4] == 'U' && path[5] == 'N' && path[6] == 'C'
  }

  /** A Windows path whose root can run past its first separator: one that
      starts with two separators, or a device path. */
  predicate LongRoot(p: Platform, path: string) {
    (p == Windows && |path| >= 2 && IsSeparator(p, path[0]) && IsSeparator(p, path[1]))
    || IsDevice(p, path)
  }

  /** The first separator at or after `i`, or the length when there is none. */
  function SeparatorFrom(p: Platform, path: string, i: nat): (j: nat)
    requires i <= |path|
    ensures i <= j <= |path|
    ensures forall k :: i <= k < j ==> !IsSeparator(p, path[k])
    ensures j < |path| ==> IsSeparator(p, path[j])
    decreases |path| - i
  {
    if i == |path| || IsSeparator(p, path[i]) then i else SeparatorFrom(p, path, i + 1)
  }

  /** The end of `server\share` for a UNC path whose server starts at `i`:
      the separator after the share, or the length. */
  function UncRootEnd(p: Platform, path: string, i: nat): (n: nat)
    requires i <= |path|
    ensures i <= n <= |path|
  {
    var j := SeparatorFrom(p, path, i);
    if j == |path| then j else SeparatorFrom(p, path, j + 1)
  }

  /** `PathInternal.GetRootLength`, the length of `Path.GetPathRoot`. On
      Linux and macOS it is the leading `/`. */
  function RootLength(p: Platform, path: string): (n: nat)
    ensures n <= |path|
    ensures p == Unix ==> n == if |path| > 0 && path[0] == '/' then 1 else 0
  {
    if p == Unix then
      if |path| > 0 && path[0] == '/' then 1 else 0
    else if IsDeviceUnc(p, path) then
      UncRootEnd(p, path, 8)
    else if !IsDevice(p, path) && |path| > 0 && IsSeparator(p, path[0]) then
      if |path| > 1 && IsSeparator(p, path[1]) then UncRootEnd(p, path, 2) else 1
    else if IsDevice(p, path) then
      var j := SeparatorFrom(p, path, 4);
      if j < |path| && j > 4 then j + 1 else j
    else if HasDrive(p, path) then
      if |path| > 2 && IsSeparator(p, path[2]) then 3 else 2
    else 0
  }

  /** The text after the last separator, or the whole path when it has none. */
  function AfterLastSeparator(p: Platform, path: string): (r: string)
    ensures |r| <= |path| && r == path[|path| - |r|..]
    ensures forall i :: 0 <= i < |r| ==> !IsSeparator(p, r[i])
    ensures |r| < |path| ==> IsSeparator(p, path[|path| - |r| - 1])
  {
    if |path| == 0 || IsSeparator(p, path[|path| - 1]) then ""
    else AfterLastSeparator(p, path[..|path| - 1]) + [path[|path| - 1]]
  }

  /** `Path.GetFileName`: the text after the last separator, unless that
      separator lies inside the root, when it is the text after the root.
      The result never holds a separator or any part of the root; on an
      ordinary path (no UNC or device root) with a separator it starts
      right after the last one, and a path with no separator loses only a
      leading drive. */
  function FileName(p: Platform, path: string): (r: string)
    ensures |r| <= |path| && r == path[|path| - |r|..]
    ensures forall i :: 0 <= i < |r| ==> !IsSeparator(p, r[i])
    ensures RootLength(p, path) <= |path| - |r|
    ensures |r| < |path| ==> |path| - |r| == RootLength(p, path) || IsSeparator(p, path[|path| - |r| - 1])
    ensures HasSeparator(p, path) && !LongRoot(p, path) ==>
              |r| < |path| && IsSeparator(p, path[|path| - |r| - 1])
    ensures !HasSeparator(p, path) ==> r == if HasDrive(p, path) then path[2..] else path
  {
    path[NameStart(p, path)..]
  }

  /** Where `Path.GetFileName` starts: after the last separator, or at the
      end of the root when that separator lies inside it. */
  function NameStart(p: Platform, path: string): (s: nat)
    ensures RootLength(p, path) <= s <= |path|
    ensures forall k :: s <= k < |path| ==> !IsSeparator(p, path[k])
    ensures 0 < s ==> s == RootLength(p, path) || IsSeparator(p, path[s - 1])
    ensures HasSeparator(p, path) && !LongRoot(p, path) ==> 0 < s && IsSeparator(p, path[s - 1])
    ensures !HasSeparator(p, path) ==> s == if HasDrive(p, path) then 2 else 0
  {
    var root := RootLength(p, path);
    var start := |path| - |AfterLastSeparator(p, path)|;
    SeparatorsBefore(p, path);
    OrdinaryRootFirst(p, path);
    NoSeparatorRoot(p, path);
    if start < root then root else start
  }

  /** Without a UNC or device root, the root is a drive (`C:` or `C:\`), a
      leading separator, or nothing. */
  lemma OrdinaryRoot(p: Platform, path: string)
    requires !LongRoot(p, path)
    ensures RootLength(p, path)
              == if HasDrive(p, path) then (if |path| > 2 && IsSeparator(p, path[2]) then 3 else 2)
                 else if |path| > 0 && IsSeparator(p, path[0]) then 1 else 0
  {
  }

  /** An ordinary root ends no later than just after any separator. */
  lemma OrdinaryRootBefore(p: Platform, path: string, k: nat)
    requires !LongRoot(p, path) && k < |path| && IsSeparator(p, path[k])
    ensures RootLength(p, path) <= k + 1
  {
    OrdinaryRoot(p, path);
  }

  /** An ordinary root ends no later than the text after the last separator. */
  lemma OrdinaryRootFirst(p: Platform, path: string)
    ensures HasSeparator(p, path) && !LongRoot(p, path) ==>
              var start := |path| - |AfterLastSeparator(p, path)|; 0 < start && RootLength(p, path) <= start
  {
    if HasSeparator(p, path) && !LongRoot(p, path) {
      var start := |path| - |AfterLastSeparator(p, path)|;
      var k :| 0 <= k < |path| && IsSeparator(p, path[k]);
      SeparatorsBefore(p, path);
      assert k < start;
      OrdinaryRootBefore(p, path, start - 1);
    }
  }

  /** A path with no separator has the drive, or nothing, as root. */
  lemma NoSeparatorRoot(p: Platform, path: string)
    ensures !HasSeparator(p, path) ==>
              AfterLastSeparator(p, path) == path && RootLength(p, path) == if HasDrive(p, path) then 2 else 0
  {
    if !HasSeparator(p, path) {
      OrdinaryRoot(p, path);
    }
  }

  /** Every separator lies before the text after the last one. */
  lemma SeparatorsBefore(p: Platform, path: string)
    ensures forall k :: |path| - |AfterLastSeparator(p, path)| <= k < |path| ==> !IsSeparator(p, path[k])
  {
    var tail := AfterLastSeparator(p, path);
    var start := |path| - |tail|;
    assert forall k :: start <= k < |path| ==> path[k] == tail[k - start];
  }

  /** `Path.GetFileNameWithoutExtension`: the file name up to its last `.`. */
  function FileNameWithoutExtension(p: Platform, path: string): (r: string)
    ensures var name := FileName(p, path);
            && |r| <= |name| && r == name[..|r|]
            && ('.' in name <==> |r| < |name|)
            && (|r| < |name| ==> name[|r|] == '.' && '.' !in name[|r| + 1..])
  {
    WithoutExtension(FileName(p, path))
  }

  /** A name up to its last `.`, or the whole name when it has none. */
  function WithoutExtension(name: string): (r: string)
    ensures |r| <= |name| && r == name[..|r|]
    ensures '.' in name <==> |r| < |name|
    ensures |r| < |name| ==> name[|r|] == '.' && '.' !in name[|r| + 1..]
  {
    match Text.LastIndexIn(name, 0, |name|, '.')
    case None =>
      NoDotAfter(name, 0);
      assert name[0..] == name;
      name
    case Some(i) =>
      NoDotAfter(name, i + 1);
      assert '.' in name by { assert name[i] == '.'; }
      name[..i]
  }

  lemma NoDotAfter(name: string, i: nat)
    requires i <= |name| && forall m :: i <= m < |name| ==> name[m] != '.'
    ensures '.' !in name[i..]
  {
    var tail := name[i..];
    assert forall m :: 0 <= m < |tail| ==> tail[m] == name[i + m];
  }

  /** The name after a `/` is the file name on every platform, whatever
      other characters, `:` among them, it holds. */
  lemma FileNameAfterSlash(p: Platform, dir: string, name: string)
    requires forall i :: 0 <= i < |name| ==> !IsSeparator(p, name[i])
    requires !LongRoot(p, dir + "/" + name)
    ensures FileName(p, dir + "/" + name) == name
  {
    var path := dir + "/" + name;
    assert path[|dir|] == '/';
    OrdinaryRootBefore(p, path, |dir|);
    NameAfter(p, dir, '/', name);
  }

  /** When the root ends by a separator with a plain name after it, that name
      is the file name. */
  lemma NameAfter(p: Platform, head: string, c: char, name: string)
    requires IsSeparator(p, c) && forall i :: 0 <= i < |name| ==> !IsSeparator(p, name[i])
    requires RootLength(p, head + [c] + name) <= |head| + 1
    ensures FileName(p, head + [c] + name) == name
  {
    var path := head + [c] + name;
    assert path[|head|] == c;
    assert forall i :: |head| < i < |path| ==> path[i] == name[i - |head| - 1];
    assert path[|head| + 1..] == name;
  }

  /** A path that is all root names nothing. */
  lemma AllRoot(p: Platform, path: string)
    requires RootLength(p, path) == |path|
    ensures FileName(p, path) == ""
  {
  }

  /** A name has at most one `.` with no `.` after it. */
  lemma LastDotUnique(name: string, a: nat, b: nat)
    requires a < |name| && name[a] == '.' && '.' !in name[a + 1..]
    requires b < |name| && name[b] == '.' && '.' !in name[b + 1..]
    ensures a == b
  {
  }

  /** A file name `stem.ext` with no `.` in `ext` loses exactly `.ext`. */
  lemma StemOfName(p: Platform, path: string, stem: string, ext: string)
    requires FileName(p, path) == stem + "." + ext && '.' !in ext
    ensures FileNameWithoutExtension(p, path) == stem
  {
    var name := stem + "." + ext;
    var r := FileNameWithoutExtension(p, path);
    assert name[|stem|] == '.' && name[|stem| + 1..] == ext;
    assert '.' in name;
    LastDotUnique(name, |r|, |stem|);
  }

  /** Dropping the extension after a `/`: the stem before the last `.`
      comes back, dots and colons in it included. */
  lemma StemAfterSlash(p: Platform, dir: string, stem: string, ext: string)
    requires forall i :: 0 <= i < |stem| ==> !IsSeparator(p, stem[i])
    requires forall i :: 0 <= i < |ext| ==> !IsSeparator(p, ext[i]) && ext[i] != '.'
    requires !LongRoot(p, dir + "/" + stem + "." + ext)
    ensures FileNameWithoutExtension(p, dir + "/" + stem + "." + ext) == stem
  {
    var name := stem + "." + ext;
    var path := dir + "/" + name;
    assert dir + "/" + stem + "." + ext == path;
    DottedName(p, stem, ext);
    FileNameAfterSlash(p, dir, name);
    StemOfName(p, path, stem, ext);
  }

  lemma DottedName(p: Platform, stem: string, ext: string)
    requires forall i :: 0 <= i < |stem| ==> !IsSeparator(p, stem[i])
    requires forall i :: 0 <= i < |ext| ==> !IsSeparator(p, ext[i])
    ensures var name := stem + "." + ext; forall i :: 0 <= i < |name| ==> !IsSeparator(p, name[i])
  {
    var name := stem + "." + ext;
    assert forall i :: |stem| < i < |name| ==> name[i] == ext[i - |stem| - 1];
  }

  /** The first separator from `i` is the one the caller points at. */
  lemma SeparatorFromIs(p: Platform, path: string, i: nat, j: nat)
    requires i <= j <= |path| && forall k :: i <= k < j ==> !IsSeparator(p, path[k])
    requires j == |path| || IsSeparator(p, path[j])
    ensures SeparatorFrom(p, path, i) == j
  {
  }

  /** On Windows `\\server\share` is all root and names nothing; a name
      after the share is the file name. */
  lemma UncShareName(server: string, share: string, name: string)
    requires server != "." && server != "?"
    requires forall i :: 0 <= i < |server| ==> !IsSeparator(Windows, server[i])
    requires forall i :: 0 <= i < |share| ==> !IsSeparator(Windows, share[i])
    requires forall i :: 0 <= i < |name| ==> !IsSeparator(Windows, name[i])
    ensures FileName(Windows, "\\\\" + server + "\\" + share) == ""
    ensures FileName(Windows, "\\\\" + server + "\\" + share + "\\" + name) == name
  {
    var root := "\\\\" + server + "\\" + share;
    var path := root + "\\" + name;
    UncRoot(server, share, root);
    AllRoot(Windows, root);
    assert path[..|root|] == root;
    UncRoot(server, share, path);
    NameAfter(Windows, root, '\\', name);
  }

  /** The root of a path that starts `\\server\share` ends after the share. */
  lemma UncRoot(server: string, share: string, path: string)
    requires server != "." && server != "?"
    requires forall i :: 0 <= i < |server| ==> !IsSeparator(Windows, server[i])
    requires forall i :: 0 <= i < |share| ==> !IsSeparator(Windows, share[i])
    requires |path| >= 3 + |server| + |share| && path[..3 + |server| + |share|] == "\\\\" + server + "\\" + share
    requires |path| == 3 + |server| + |share| || IsSeparator(Windows, path[3 + |server| + |share|])
    ensures RootLength(Windows, path) == 3 + |server| + |share|
  {
    var head := "\\\\" + server + "\\" + share;
    var s := |server|;
    assert forall i :: 0 <= i < |head| ==> path[i] == head[i];
    assert path[0] == '\\' && path[1] == '\\' && path[2 + s] == '\\';
    assert forall i :: 2 <= i < 2 + s ==> path[i] == server[i - 2];
    assert forall i :: 3 + s <= i < |head| ==> path[i] == share[i - 3 - s];
    if s == 0 {
      assert path[2] == '\\';
    } else if s == 1 {
      assert path[2] == server[0] && server == [server[0]];
    } else {
      assert path[3] == server[1];
    }
    assert !IsDevice(Windows, path);
    SeparatorFromIs(Windows, path, 2, 2 + s);
    SeparatorFromIs(Windows, path, 3 + s, |head|);
  }

  /** A UNC share alone names nothing on Windows; elsewhere `//` is just
      two separators. */
  lemma UncAloneName()
    ensures FileName(Windows, "//share") == ""
    ensures FileName(Unix, "//share") == "share"
  {
    var unc := "//share";
    assert !IsDevice(Windows, unc) by { assert unc[2] == 's'; }
    SeparatorFromIs(Windows, unc, 2, |unc|);
    AllRoot(Windows, unc);
    assert unc == "/" + ['/'] + "share";
    NameAfter(Unix, "/", '/', "share");
  }

  /** A device alone names nothing; what follows its separator is the name. */
  lemma DeviceNames(name: string)
    requires forall i :: 0 <= i < |name| ==> !IsSeparator(Windows, name[i])
    ensures FileName(Windows, "\\\\.\\pipe") == ""
    ensures FileName(Windows, "\\\\.\\pipe" + "\\" + name) == name
  {
    var pipe := "\\\\.\\pipe";
    DeviceRoot(pipe);
    AllRoot(Windows, pipe);
    var named := pipe + "\\" + name;
    assert named[..8] == pipe;
    assert named[8] == '\\';
    DeviceRoot(named);
    NameAfter(Windows, pipe, '\\', name);
  }

  lemma DeviceRoot(path: string)
    requires |path| >= 8 && path[..8] == "\\\\.\\pipe"
    requires |path| == 8 || IsSeparator(Windows, path[8])
    ensures RootLength(Windows, path) == if |path| == 8 then 8 else 9
  {
    assert path[0] == '\\' && path[1] == '\\' && path[2] == '.' && path[3] == '\\' && path[4] == 'p';
    assert forall k :: 4 <= k < 8 ==> path[k] == "pipe"[k - 4];
    assert IsDevice(Windows, path) && !IsDeviceUnc(Windows, path);
    SeparatorFromIs(Windows, path, 4, 8);
  }

  lemma NoSeparator(p: Platform, path: string)
    requires '/' !in path && '\\' !in path
    ensures !HasSeparator(p, path)
  {
  }

  /** A Windows path with a drive and no separator loses the drive only;
      elsewhere the drive is part of the name. */
  lemma DriveRelativeName()
    ensures FileName(Windows, "C:a.txt") == "a.txt"
    ensures FileName(Unix, "C:a.txt") == "C:a.txt"
  {
    var path := "C:a.txt";
    assert '/' !in path && '\\' !in path;
    NoSeparator(Windows, path);
    NoSeparator(Unix, path);
    assert HasDrive(Windows, path) && !HasDrive(Unix, path);
    assert path[2..] == "a.txt";
  }
}
