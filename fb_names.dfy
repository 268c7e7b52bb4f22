/** The pure helpers of the file browser: case-insensitive name and
    extension tests, the icon chosen for a file, the names `ZipFiles` gives
    an archive and the entries inside it, and the read cursor behind an
    upload. */
module FileNames {
  import opened Text
  import opened Wrappers

  // ---------------------------------------------------------------------
  // Names and extensions

  /** `IsSamePath` (and the two-string `IsExtension`): the same length and
      equal under `strncasecmp` over that length. */
  predicate IsSamePath(a: string, b: string) {
    |a| == |b| && LowerStr(a) == LowerStr(b)
  }

  /** Character by character: equal once each side is folded with
      `tolower`. */
  lemma IsSamePathChars(a: string, b: string)
    ensures IsSamePath(a, b) <==> |a| == |b| && forall i :: 0 <= i < |a| ==> Lower(a[i]) == Lower(b[i])
  {
    if |a| == |b| {
      if forall i :: 0 <= i < |a| ==> Lower(a[i]) == Lower(b[i]) {
        forall i | 0 <= i < |a| ensures LowerStr(a)[i] == LowerStr(b)[i] {
          LowerStrAt(a, i);
          LowerStrAt(b, i);
        }
        assert LowerStr(a) == LowerStr(b);
      }
      if LowerStr(a) == LowerStr(b) {
        forall i | 0 <= i < |a| ensures Lower(a[i]) == Lower(b[i]) {
          LowerStrAt(a, i);
          LowerStrAt(b, i);
        }
      }
    }
  }

  /** A text with no upper-case letter. */
  predicate Folded(s: string) {
    forall i :: 0 <= i < |s| ==> !('A' <= s[i] <= 'Z')
  }

  lemma {:induction false} FoldedFixed(s: string)
    requires Folded(s)
    ensures LowerStr(s) == s
  {
    if s != [] {
      FoldedFixed(s[1..]);
    }
  }

  /** `ext` is one of `list` under `IsSamePath`. */
  predicate Listed(ext: string, list: seq<string>) {
    exists k :: 0 <= k < |list| && IsSamePath(ext, list[k])
  }

  /** Between texts with no upper-case letter, listing is plain
      membership. */
  lemma ListedFolded(ext: string, list: seq<string>)
    requires Folded(ext) && forall k :: 0 <= k < |list| ==> Folded(list[k])
    ensures Listed(ext, list) <==> ext in list
  {
    FoldedFixed(ext);
    forall k | 0 <= k < |list| ensures IsSamePath(ext, list[k]) <==> ext == list[k] {
      FoldedFixed(list[k]);
    }
  }

  /** `IsExtension` over a list: the first listed extension of the same
      length and equal ignoring case ends the search. */
  method IsExtension(ext: string, list: seq<string>) returns (r: bool)
    ensures r == Listed(ext, list)
  {
    for k := 0 to |list|
      invariant forall j :: 0 <= j < k ==> !IsSamePath(ext, list[j])
    {
      var e := list[k];
      if |e| == |ext| && LowerStr(ext) == LowerStr(e) {
        return true;
      }
    }
    return false;
  }

  /** `check_all_ext`: every selected extension is one of `list`. */
  method AllListed(exts: seq<string>, list: seq<string>) returns (r: bool)
    ensures r <==> forall i :: 0 <= i < |exts| ==> Listed(exts[i], list)
  {
    for i := 0 to |exts|
      invariant forall j :: 0 <= j < i ==> Listed(exts[j], list)
    {
      var ok := IsExtension(exts[i], list);
      if !ok {
        return false;
      }
    }
    return true;
  }

  /** The audio list as written: a missing comma joins "aac" and "ac3"
      into the one extension "aacac3". */
  const AUDIO_EXTENSIONS_AS_WRITTEN: seq<string> :=
    ["mp3", "ogg", "flac", "wav", "aacac3", "aif", "asf", "bfwav", "bfsar", "bfstm"]

  /** The audio list with "aac" and "ac3" as two entries. */
  const AUDIO_EXTENSIONS: seq<string> :=
    ["mp3", "ogg", "flac", "wav", "aac", "ac3", "aif", "asf", "bfwav", "bfsar", "bfstm"]

  const VIDEO_EXTENSIONS: seq<string> :=
    ["mp4", "mkv", "m3u", "m3u8", "hls", "vob", "avi", "dv", "flv", "m2ts",
     "m2v", "m4a", "mov", "mpeg", "mpg", "mts", "swf", "ts", "vob", "wma", "wmv"]

  const IMAGE_EXTENSIONS: seq<string> := ["png", "jpg", "jpeg", "bmp", "gif"]

  const INSTALL_EXTENSIONS: seq<string> := ["nsp", "xci", "nsz", "xcz"]

  /** Already compressed or encrypted: stored raw in an archive. */
  const COMPRESSED_EXTENSIONS: seq<string> := ["zip", "xz", "7z", "rar", "tar", "nca", "nsp", "xci", "nsz", "xcz"]

  const ZIP_EXTENSIONS: seq<string> := ["zip"]

  datatype Icon = FolderIcon | FileIcon | AudioIcon | VideoIcon | ImageIcon | NroIcon | ZipIcon

  /** The icon of a list entry, given the audio list in use: a folder, or
      the first extension list that holds the file's extension. */
  function IconOf(isDir: bool, ext: string, audio: seq<string>): (r: Icon)
    ensures r == FolderIcon <==> isDir
    ensures r == AudioIcon <==> !isDir && Listed(ext, audio)
    ensures r == FileIcon <==>
      && !isDir && !Listed(ext, audio) && !Listed(ext, VIDEO_EXTENSIONS)
      && !Listed(ext, IMAGE_EXTENSIONS) && !Listed(ext, INSTALL_EXTENSIONS)
      && !Listed(ext, ZIP_EXTENSIONS) && !IsSamePath(ext, "nro")
  {
    if isDir then FolderIcon
    else if Listed(ext, audio) then AudioIcon
    else if Listed(ext, VIDEO_EXTENSIONS) then VideoIcon
    else if Listed(ext, IMAGE_EXTENSIONS) then ImageIcon
    else if Listed(ext, INSTALL_EXTENSIONS) then NroIcon
    else if Listed(ext, ZIP_EXTENSIONS) then ZipIcon
    else if IsSamePath(ext, "nro") then NroIcon
    else FileIcon
  }

  lemma AudioAsWrittenFolded()
    ensures forall k :: 0 <= k < |AUDIO_EXTENSIONS_AS_WRITTEN| ==> Folded(AUDIO_EXTENSIONS_AS_WRITTEN[k])
  {
    forall k | 0 <= k < |AUDIO_EXTENSIONS_AS_WRITTEN| ensures Folded(AUDIO_EXTENSIONS_AS_WRITTEN[k]) {
      var e := AUDIO_EXTENSIONS_AS_WRITTEN[k];
      assert forall i :: 0 <= i < |e| ==> 'a' <= e[i] <= 'z' || '0' <= e[i] <= '9';
    }
  }

  /** As written, an ".aac" or ".ac3" file does not get the audio icon. */
  lemma AudioAsWrittenMissesAac()
    ensures IconOf(false, "aac", AUDIO_EXTENSIONS_AS_WRITTEN) != AudioIcon
    ensures IconOf(false, "ac3", AUDIO_EXTENSIONS_AS_WRITTEN) != AudioIcon
  {
    AudioAsWrittenFolded();
    ListedFolded("aac", AUDIO_EXTENSIONS_AS_WRITTEN);
    ListedFolded("ac3", AUDIO_EXTENSIONS_AS_WRITTEN);
  }

  /** With the two entries separated, both get the audio icon, in any
      case. */
  lemma AudioListsAac(ext: string)
    requires IsSamePath(ext, "aac") || IsSamePath(ext, "ac3")
    ensures IconOf(false, ext, AUDIO_EXTENSIONS) == AudioIcon
  {
    assert AUDIO_EXTENSIONS[4] == "aac" && AUDIO_EXTENSIONS[5] == "ac3";
  }

  // ---------------------------------------------------------------------
  // Archive names

  predicate EndsWith(s: string, t: string) {
    |t| <= |s| && s[|s| - |t|..] == t
  }

  /** `strrchr`: the position of the last `c`, if any. */
  function LastIndexOf(s: string, c: char): (r: Option<nat>)
    ensures r.Some? ==> r.value < |s| && s[r.value] == c && c !in s[r.value + 1..]
    ensures r.None? ==> c !in s
    decreases |s|
  {
    if s == [] then None
    else if s[|s| - 1] == c then Some(|s| - 1)
    else
      var r := LastIndexOf(s[..|s| - 1], c);
      assert s == s[..|s| - 1] + [s[|s| - 1]];
      if r.Some? then assert s[r.value + 1..] == s[..|s| - 1][r.value + 1..] + [s[|s| - 1]]; r
      else r
  }

  /** The archive name for one target: the target's name up to its last
      '.', or all of it when it has none, followed by ".zip". */
  function SingleArchiveName(name: string): (r: string)
    ensures EndsWith(r, ".zip")
    ensures var n := |r| - 4; n <= |name| && r[..n] == name[..n]
    ensures var n := |r| - 4; (n == |name| && '.' !in name) || (n < |name| && name[n] == '.' && '.' !in name[n + 1..])
  {
    match LastIndexOf(name, '.')
    case None => name + ".zip"
    case Some(k) => name[..k] + ".zip"
  }

  /** The `i`-th name tried for several targets. */
  function ArchiveName(i: nat): string {
    if i == 0 then "Archive.zip" else "Archive (" + NatToString(i) + ").zip"
  }

  lemma ArchiveNameInjective(i: nat, j: nat)
    requires ArchiveName(i) == ArchiveName(j)
    ensures i == j
  {
    if i > 0 && j > 0 {
      var a, b := ArchiveName(i), ArchiveName(j);
      assert a[9..|a| - 5] == NatToString(i);
      assert b[9..|b| - 5] == NatToString(j);
      NatToStringInjective(i, j);
    }
  }

  /** The first `n + 1` names tried. */
  function ArchiveNames(n: nat): set<string> {
    if n == 0 then {ArchiveName(0)} else ArchiveNames(n - 1) + {ArchiveName(n)}
  }

  lemma ArchiveNamesCount(n: nat)
    ensures |ArchiveNames(n)| == n + 1
    ensures forall i :: 0 <= i <= n ==> ArchiveName(i) in ArchiveNames(n)
    ensures forall x :: x in ArchiveNames(n) ==> exists i :: 0 <= i <= n && x == ArchiveName(i)
  {
    ArchiveNamesSize(n);
    ArchiveNamesHave(n);
    ArchiveNamesOnly(n);
  }

  lemma {:induction false} ArchiveNamesHave(n: nat)
    ensures forall i :: 0 <= i <= n ==> ArchiveName(i) in ArchiveNames(n)
  {
    if n > 0 {
      ArchiveNamesHave(n - 1);
    }
  }

  lemma {:induction false} ArchiveNamesOnly(n: nat)
    ensures forall x :: x in ArchiveNames(n) ==> exists i :: 0 <= i <= n && x == ArchiveName(i)
  {
    if n > 0 {
      ArchiveNamesOnly(n - 1);
      forall x | x in ArchiveNames(n) ensures exists i :: 0 <= i <= n && x == ArchiveName(i) {
        if x == ArchiveName(n) {
          assert 0 <= n <= n && x == ArchiveName(n);
        } else {
          assert x in ArchiveNames(n - 1);
          var i :| 0 <= i <= n - 1 && x == ArchiveName(i);
          assert 0 <= i <= n && x == ArchiveName(i);
        }
      }
    }
  }

  lemma {:induction false} ArchiveNamesSize(n: nat)
    ensures |ArchiveNames(n)| == n + 1
  {
    if n > 0 {
      ArchiveNamesSize(n - 1);
      ArchiveNamesOnly(n - 1);
      if ArchiveName(n) in ArchiveNames(n - 1) {
        var i :| 0 <= i <= n - 1 && ArchiveName(n) == ArchiveName(i);
        ArchiveNameInjective(i, n);
      }
    }
  }

  /** Finitely many names are taken, so one of the first `|taken| + 1`
      names is free. */
  lemma FreeArchiveName(taken: set<string>)
    ensures exists i :: 0 <= i <= |taken| && ArchiveName(i) !in taken
  {
    var n := |taken|;
    ArchiveNamesCount(n);
    var names := ArchiveNames(n);
    SubsetCard(names, taken);
    var x :| x in names && x !in taken;
    var i :| 0 <= i <= n && x == ArchiveName(i);
  }

  lemma SubsetCard<T>(a: set<T>, b: set<T>)
    ensures a <= b ==> |a| <= |b|
  {
    if a <= b {
      assert b == a + (b - a);
    }
  }

  /** The loop over `i` of `ZipFiles`: the first name of the series whose
      file does not exist. `taken` holds the names in the current directory
      for which `FileExists` answers true. */
  method FindArchiveName(taken: set<string>) returns (i: nat, name: string)
    ensures name == ArchiveName(i) && name !in taken
    ensures forall j :: 0 <= j < i ==> ArchiveName(j) in taken
    ensures i <= |taken|
  {
    FreeArchiveName(taken);
    ghost var b :| 0 <= b <= |taken| && ArchiveName(b) !in taken;
    i := 0;
    while true
      invariant i <= b
      invariant forall j :: 0 <= j < i ==> ArchiveName(j) in taken
      decreases b - i
    {
      name := "Archive.zip";
      if i != 0 {
        name := "Archive (" + NatToString(i) + ").zip";
      }
      if name !in taken {
        return;
      }
      i := i + 1;
    }
  }

  /** An explicit output path gets ".zip" unless it already ends with it. */
  function ExplicitArchiveName(p: string): (r: string)
    ensures EndsWith(r, ".zip")
    ensures EndsWith(p, ".zip") ==> r == p
    ensures !EndsWith(p, ".zip") ==> r == p + ".zip"
  {
    if EndsWith(p, ".zip") then p else p + ".zip"
  }

  lemma ExplicitArchiveNameIdempotent(p: string)
    ensures ExplicitArchiveName(ExplicitArchiveName(p)) == ExplicitArchiveName(p)
  {
  }

  /** Where `ZipFiles` writes: a name in the current directory, or the
      given path. */
  datatype ZipOut = InDir(name: string) | AsGiven(path: string)

  /** The naming part of `ZipFiles`; `targets` are the names of the
      selected entries. */
  method ZipOutName(zipOut: string, targets: seq<string>, taken: set<string>) returns (r: ZipOut)
    ensures zipOut == [] && |targets| == 1 ==> r == InDir(SingleArchiveName(targets[0]))
    ensures zipOut == [] && |targets| != 1 ==>
      && r.InDir? && r.name !in taken
      && exists i: nat :: r.name == ArchiveName(i) && forall j :: 0 <= j < i ==> ArchiveName(j) in taken
    ensures zipOut != [] ==> r == AsGiven(ExplicitArchiveName(zipOut))
  {
    if zipOut == [] {
      if |targets| == 1 {
        var name := targets[0];
        var ext := LastIndexOf(name, '.');
        if ext.None? {
          r := InDir(name + ".zip");
        } else {
          r := InDir(name[..ext.value] + ".zip");
        }
      } else {
        var i, name := FindArchiveName(taken);
        r := InDir(name);
      }
    } else {
      var p := zipOut;
      if !EndsWith(p, ".zip") {
        p := p + ".zip";
      }
      r := AsGiven(p);
    }
  }

  // ---------------------------------------------------------------------
  // Entry names inside an archive

  /** The text with its leading '/' characters removed. */
  function DropSlashes(s: string): string
    decreases |s|
  {
    if s != [] && s[0] == '/' then DropSlashes(s[1..]) else s
  }

  /** What is dropped is all '/', and what is left does not start with
      one. */
  lemma {:induction false} DropSlashesSpec(s: string)
    ensures var r := DropSlashes(s);
      && (r == [] || r[0] != '/')
      && |r| <= |s| && s[|s| - |r|..] == r
      && forall i :: 0 <= i < |s| - |r| ==> s[i] == '/'
    decreases |s|
  {
    if s != [] && s[0] == '/' {
      DropSlashesSpec(s[1..]);
      var r := DropSlashes(s);
      assert s[1..][|s| - 1 - |r|..] == s[|s| - |r|..];
    }
  }

  /** The root prefix removed, when the text starts with it (`strncmp`
      over the root's length). */
  function StripRoot(s: string, root: string): (r: string)
    ensures root <= s ==> r == s[|root|..]
    ensures !(root <= s) ==> r == s
  {
    if root <= s then s[|root|..] else s
  }

  /** `zip_add`'s entry name: the file path with the length of the current
      directory cut off, then the backend root, then every leading '/'.
      The source reads past `m_path`'s length of the file path, so a file
      path at least that long is demanded. */
  method EntryNameInZip(filePath: string, viewPath: string, root: string) returns (name: string)
    requires |viewPath| <= |filePath|
    ensures name == DropSlashes(StripRoot(filePath[|viewPath|..], root))
  {
    var s := filePath[|viewPath|..];
    if root <= s {
      s := s[|root|..];
    }
    var k := 0;
    while k < |s| && s[k] == '/'
      invariant 0 <= k <= |s|
      invariant DropSlashes(s[k..]) == DropSlashes(s)
    {
      assert s[k..][1..] == s[k + 1..];
      k := k + 1;
    }
    name := s[k..];
  }

  /** An entry name never starts with '/', and is what is left of the file
      path after its directory, the root and the slashes. */
  lemma EntryNameShape(filePath: string, viewPath: string, root: string)
    requires |viewPath| <= |filePath|
    ensures var name := DropSlashes(StripRoot(filePath[|viewPath|..], root));
      && (name == [] || name[0] != '/')
      && |name| <= |filePath| && filePath[|filePath| - |name|..] == name
  {
    var s := filePath[|viewPath|..];
    var t := StripRoot(s, root);
    var name := DropSlashes(t);
    DropSlashesSpec(t);
    assert t == s[|s| - |t|..];
    assert s == filePath[|filePath| - |s|..];
    assert filePath[|filePath| - |name|..] == t[|t| - |name|..];
  }

  // ---------------------------------------------------------------------
  // Upload

  function Sum(xs: seq<nat>): nat {
    if xs == [] then 0 else Sum(xs[..|xs| - 1]) + xs[|xs| - 1]
  }

  /** The read callback `UploadFiles` hands to the transport: it reads
      from `offset` through the pull function and advances by what was
      read. `handed` records every value it returned. */
  class UploadCursor {
    const fileSize: int
    var offset: int
    ghost var handed: seq<nat>

    /** The offset is the number of bytes handed over so far. */
    ghost predicate Valid()
      reads this
    {
      offset == Sum(handed)
    }

    constructor (fileSize: int)
      ensures Valid() && this.fileSize == fileSize && offset == 0 && handed == []
    {
      this.fileSize := fileSize;
      offset := 0;
      handed := [];
    }

    /** One request of at most `size` bytes. `ok` and `bytesRead` are what
        the pull function reports. Past the end of the file, and after a
        failed read, nothing is handed over. */
    method Read(size: nat, ok: bool, bytesRead: nat) returns (n: nat)
      requires Valid()
      modifies this
      ensures Valid()
      ensures old(offset) >= fileSize ==> n == 0
      ensures old(offset) < fileSize && !ok ==> n == 0
      ensures old(offset) < fileSize && ok ==> n == bytesRead
      ensures offset == old(offset) + n && handed == old(handed) + [n]
    {
      if offset >= fileSize {
        n := 0;
      } else if !ok {
        n := 0;
      } else {
        offset := offset + bytesRead;
        n := bytesRead;
      }
      assert (handed + [n])[..|handed|] == handed;
      handed := handed + [n];
    }
  }

  /** The bytes handed over in two stretches add up. */
  lemma {:induction false} SumAppend(a: seq<nat>, b: seq<nat>)
    ensures Sum(a + b) == Sum(a) + Sum(b)
    decreases |b|
  {
    if b == [] {
      assert a + b == a;
    } else {
      assert (a + b)[..|a + b| - 1] == a + b[..|b| - 1];
      SumAppend(a, b[..|b| - 1]);
    }
  }
}
