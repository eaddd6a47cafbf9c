/**
 * The neocmakelsp extension: choosing the release asset for the current
 * platform, and finding (or installing) the language-server binary.
 */
module NeoCMake {
  import opened Wrappers
  import opened Host

  /** The name under which the server is looked up and installed. */
  const SERVER_NAME := "neocmakelsp"

  /** The one macOS build, a universal binary. */
  const MAC_ASSET := "neocmakelsp-universal-apple-darwin.tar.gz"

  predicate StartsWith(s: string, prefix: string) {
    prefix <= s
  }

  predicate EndsWith(s: string, suffix: string) {
    |suffix| <= |s| && s[|s| - |suffix|..] == suffix
  }

  lemma EndsWithAppend(p: string, q: string, t: string)
    requires |t| <= |q|
    ensures EndsWith(p + q, t) <==> EndsWith(q, t)
  {
    assert (p + q)[|p + q| - |t|..] == q[|q| - |t|..];
  }

  lemma NotEndsWith(s: string, t: string, i: nat)
    requires |t| <= |s| && i < |t| && s[|s| - |t| + i] != t[i]
    ensures !EndsWith(s, t)
  {
    assert s[|s| - |t|..][i] == s[|s| - |t| + i];
  }

  /** The architecture's spelling in release asset names, if a build exists for it. */
  function ArchString(arch: Architecture): Option<string> {
    match arch
    case Aarch64 => Some("aarch64")
    case X8664 => Some("x86_64")
    case X86 => None
  }

  /**
   * The name of the release asset built for `platform` and `arch`; `musl`
   * says whether a Linux host uses the musl C library.
   */
  function AssetName(platform: Os, arch: Architecture, musl: bool): (r: Result<string>)
    ensures r.Ok? <==> platform == Mac || arch != X86
    ensures platform == Mac ==> r == Ok(MAC_ASSET)
  {
    match platform
    case Mac => Ok(MAC_ASSET)
    case Windows => (
      match ArchString(arch)
      case None => Err("Unsupported Windows architecture")
      case Some(a) => Ok("neocmakelsp-" + a + WINDOWS_TAIL))
    case Linux =>
      match ArchString(arch)
      case None => Err("Unsupported Linux architecture")
      case Some(a) =>
        var libcSuffix := if musl then MUSL_SUFFIX else GNU_SUFFIX;
        Ok("neocmakelsp-" + a + "-" + libcSuffix)
  }

  const WINDOWS_TAIL := "-pc-windows-msvc.zip"
  const MUSL_SUFFIX := "unknown-linux-musl.tar.gz"
  const GNU_SUFFIX := "unknown-linux-gnu.tar.gz"

  /** Which of the distinguishing endings each fixed part of an asset name has. */
  lemma MacAssetEndings()
    ensures EndsWith(MAC_ASSET, ".tar.gz") && !EndsWith(MAC_ASSET, ".zip")
    ensures !EndsWith(MAC_ASSET, "-linux-musl.tar.gz") && !EndsWith(MAC_ASSET, "-linux-gnu.tar.gz")
  {
    assert MAC_ASSET[|MAC_ASSET| - 7..] == ".tar.gz";
    NotEndsWith(MAC_ASSET, ".zip", 0);
    NotEndsWith(MAC_ASSET, "-linux-musl.tar.gz", 0);
    NotEndsWith(MAC_ASSET, "-linux-gnu.tar.gz", 0);
  }

  lemma WindowsTailEndings()
    ensures EndsWith(WINDOWS_TAIL, ".zip") && !EndsWith(WINDOWS_TAIL, ".tar.gz")
    ensures !EndsWith(WINDOWS_TAIL, "-linux-musl.tar.gz") && !EndsWith(WINDOWS_TAIL, "-linux-gnu.tar.gz")
  {
    assert WINDOWS_TAIL[|WINDOWS_TAIL| - 4..] == ".zip";
    NotEndsWith(WINDOWS_TAIL, ".tar.gz", 0);
    NotEndsWith(WINDOWS_TAIL, "-linux-musl.tar.gz", 0);
    NotEndsWith(WINDOWS_TAIL, "-linux-gnu.tar.gz", 1);
  }

  lemma MuslSuffixEndings()
    ensures EndsWith(MUSL_SUFFIX, ".tar.gz") && !EndsWith(MUSL_SUFFIX, ".zip")
    ensures EndsWith(MUSL_SUFFIX, "-linux-musl.tar.gz") && !EndsWith(MUSL_SUFFIX, "-linux-gnu.tar.gz")
  {
    assert MUSL_SUFFIX[|MUSL_SUFFIX| - 7..] == ".tar.gz";
    NotEndsWith(MUSL_SUFFIX, ".zip", 0);
    assert MUSL_SUFFIX[|MUSL_SUFFIX| - 18..] == "-linux-musl.tar.gz";
    NotEndsWith(MUSL_SUFFIX, "-linux-gnu.tar.gz", 0);
  }

  lemma GnuSuffixEndings()
    ensures EndsWith(GNU_SUFFIX, ".tar.gz") && !EndsWith(GNU_SUFFIX, ".zip")
    ensures !EndsWith(GNU_SUFFIX, "-linux-musl.tar.gz") && EndsWith(GNU_SUFFIX, "-linux-gnu.tar.gz")
  {
    assert GNU_SUFFIX[|GNU_SUFFIX| - 7..] == ".tar.gz";
    NotEndsWith(GNU_SUFFIX, ".zip", 0);
    NotEndsWith(GNU_SUFFIX, "-linux-musl.tar.gz", 0);
    assert GNU_SUFFIX[|GNU_SUFFIX| - 17..] == "-linux-gnu.tar.gz";
  }

  /** The endings of an asset name are those of its fixed last part. */
  lemma AssetNameEndings(platform: Os, arch: Architecture, musl: bool, t: string)
    requires AssetName(platform, arch, musl).Ok? && |t| <= 18
    ensures EndsWith(AssetName(platform, arch, musl).value, t) <==>
      EndsWith(match platform
               case Mac => MAC_ASSET
               case Windows => WINDOWS_TAIL
               case Linux => if musl then MUSL_SUFFIX else GNU_SUFFIX, t)
  {
    if platform != Mac {
      var a := ArchString(arch).value;
      if platform == Windows {
        EndsWithAppend("neocmakelsp-" + a, WINDOWS_TAIL, t);
      } else {
        EndsWithAppend("neocmakelsp-" + a + "-", if musl then MUSL_SUFFIX else GNU_SUFFIX, t);
      }
    }
  }

  /** Windows builds are zip archives, all others gzipped tarballs. */
  lemma AssetNameArchive(platform: Os, arch: Architecture, musl: bool)
    requires AssetName(platform, arch, musl).Ok?
    ensures EndsWith(AssetName(platform, arch, musl).value, ".zip") <==> platform == Windows
    ensures EndsWith(AssetName(platform, arch, musl).value, ".tar.gz") <==> platform != Windows
  {
    AssetNameEndings(platform, arch, musl, ".zip");
    AssetNameEndings(platform, arch, musl, ".tar.gz");
    MacAssetEndings();
    WindowsTailEndings();
    MuslSuffixEndings();
    GnuSuffixEndings();
  }

  /** Only Linux builds name a C library, and they name musl exactly when it was detected. */
  lemma AssetNameLibc(platform: Os, arch: Architecture, musl: bool)
    requires AssetName(platform, arch, musl).Ok?
    ensures EndsWith(AssetName(platform, arch, musl).value, "-linux-musl.tar.gz") <==> platform == Linux && musl
    ensures EndsWith(AssetName(platform, arch, musl).value, "-linux-gnu.tar.gz") <==> platform == Linux && !musl
  {
    AssetNameEndings(platform, arch, musl, "-linux-musl.tar.gz");
    AssetNameEndings(platform, arch, musl, "-linux-gnu.tar.gz");
    MacAssetEndings();
    WindowsTailEndings();
    MuslSuffixEndings();
    GnuSuffixEndings();
  }

  lemma NotStartsWith(s: string, t: string, i: nat)
    requires i < |t| && i < |s| && s[i] != t[i]
    ensures !StartsWith(s, t)
  {
  }

  /** Outside macOS an asset name starts with the server's name and the architecture. */
  lemma AssetNameHead(platform: Os, arch: Architecture, musl: bool)
    requires AssetName(platform, arch, musl).Ok? && platform != Mac
    ensures StartsWith(AssetName(platform, arch, musl).value, "neocmakelsp-" + ArchString(arch).value + "-")
  {
    var r := AssetName(platform, arch, musl).value;
    var h := "neocmakelsp-" + ArchString(arch).value + "-";
    if platform == Windows {
      var a := ArchString(arch).value;
      assert r == ("neocmakelsp-" + a) + WINDOWS_TAIL;
      assert r[..|h|] == h;
    }
  }

  /** Outside macOS, the asset name spells out the architecture right after the server's name. */
  lemma AssetNameArch(platform: Os, arch: Architecture, musl: bool)
    requires AssetName(platform, arch, musl).Ok? && platform != Mac
    ensures StartsWith(AssetName(platform, arch, musl).value, "neocmakelsp-aarch64-") <==> arch == Aarch64
    ensures StartsWith(AssetName(platform, arch, musl).value, "neocmakelsp-x86_64-") <==> arch == X8664
  {
    var r := AssetName(platform, arch, musl).value;
    var h := "neocmakelsp-" + ArchString(arch).value + "-";
    AssetNameHead(platform, arch, musl);
    assert r[12] == h[12];
    if arch == Aarch64 {
      assert h == "neocmakelsp-aarch64-";
      NotStartsWith(r, "neocmakelsp-x86_64-", 12);
    } else {
      assert h == "neocmakelsp-x86_64-";
      NotStartsWith(r, "neocmakelsp-aarch64-", 12);
    }
  }

  lemma WindowsAssetNames(musl: bool)
    ensures AssetName(Windows, Aarch64, musl) == Ok("neocmakelsp-aarch64-pc-windows-msvc.zip")
    ensures AssetName(Windows, X8664, musl) == Ok("neocmakelsp-x86_64-pc-windows-msvc.zip")
  {
    assert "neocmakelsp-" + "aarch64" + WINDOWS_TAIL == "neocmakelsp-aarch64-pc-windows-msvc.zip";
    assert "neocmakelsp-" + "x86_64" + WINDOWS_TAIL == "neocmakelsp-x86_64-pc-windows-msvc.zip";
  }

  lemma LinuxAarch64MuslAssetName()
    ensures AssetName(Linux, Aarch64, true) == Ok("neocmakelsp-aarch64-unknown-linux-musl.tar.gz")
  {
    assert "neocmakelsp-" + "aarch64" + "-" + MUSL_SUFFIX == "neocmakelsp-aarch64-unknown-linux-musl.tar.gz";
  }

  lemma LinuxAarch64GnuAssetName()
    ensures AssetName(Linux, Aarch64, false) == Ok("neocmakelsp-aarch64-unknown-linux-gnu.tar.gz")
  {
    assert "neocmakelsp-" + "aarch64" + "-" + GNU_SUFFIX == "neocmakelsp-aarch64-unknown-linux-gnu.tar.gz";
  }

  lemma LinuxX8664MuslAssetName()
    ensures AssetName(Linux, X8664, true) == Ok("neocmakelsp-x86_64-unknown-linux-musl.tar.gz")
  {
    assert "neocmakelsp-" + "x86_64" + "-" + MUSL_SUFFIX == "neocmakelsp-x86_64-unknown-linux-musl.tar.gz";
  }

  lemma LinuxX8664GnuAssetName()
    ensures AssetName(Linux, X8664, false) == Ok("neocmakelsp-x86_64-unknown-linux-gnu.tar.gz")
  {
    assert "neocmakelsp-" + "x86_64" + "-" + GNU_SUFFIX == "neocmakelsp-x86_64-unknown-linux-gnu.tar.gz";
  }

  /** The complete table of release assets, one row per supported build. */
  lemma AssetNameTable(musl: bool)
    ensures forall arch :: AssetName(Mac, arch, musl) == Ok("neocmakelsp-universal-apple-darwin.tar.gz")
    ensures AssetName(Windows, Aarch64, musl) == Ok("neocmakelsp-aarch64-pc-windows-msvc.zip")
    ensures AssetName(Windows, X8664, musl) == Ok("neocmakelsp-x86_64-pc-windows-msvc.zip")
    ensures AssetName(Windows, X86, musl).Err?
    ensures AssetName(Linux, Aarch64, true) == Ok("neocmakelsp-aarch64-unknown-linux-musl.tar.gz")
    ensures AssetName(Linux, Aarch64, false) == Ok("neocmakelsp-aarch64-unknown-linux-gnu.tar.gz")
    ensures AssetName(Linux, X8664, true) == Ok("neocmakelsp-x86_64-unknown-linux-musl.tar.gz")
    ensures AssetName(Linux, X8664, false) == Ok("neocmakelsp-x86_64-unknown-linux-gnu.tar.gz")
    ensures AssetName(Linux, X86, musl).Err?
  {
    WindowsAssetNames(musl);
    LinuxAarch64MuslAssetName();
    LinuxAarch64GnuAssetName();
    LinuxX8664MuslAssetName();
    LinuxX8664GnuAssetName();
  }

  /**
   * An asset name identifies the build it names: two hosts are served the
   * same asset only when they share the platform, and outside macOS the
   * architecture, and on Linux the C library.
   */
  lemma AssetNameIdentifiesBuild(p1: Os, a1: Architecture, m1: bool, p2: Os, a2: Architecture, m2: bool)
    requires AssetName(p1, a1, m1).Ok? && AssetName(p1, a1, m1) == AssetName(p2, a2, m2)
    ensures p1 == p2
    ensures p1 != Mac ==> a1 == a2
    ensures p1 == Linux ==> m1 == m2
  {
    AssetNameArchive(p1, a1, m1);
    AssetNameArchive(p2, a2, m2);
    AssetNameLibc(p1, a1, m1);
    AssetNameLibc(p2, a2, m2);
    if p1 != Mac {
      AssetNameArch(p1, a1, m1);
      AssetNameArch(p2, a2, m2);
    }
  }

  /** Whether musl was detected matters on Linux only. */
  lemma MuslMattersOnLinuxOnly(platform: Os, arch: Architecture)
    ensures platform != Linux ==> AssetName(platform, arch, true) == AssetName(platform, arch, false)
    ensures platform == Linux && arch != X86 ==> AssetName(platform, arch, true) != AssetName(platform, arch, false)
  {
    if platform == Linux && arch != X86 {
      AssetNameLibc(platform, arch, true);
    }
  }

  /** The file name the server binary is installed under in the working directory. */
  function BinaryName(platform: Os): (r: string)
    ensures r == SERVER_NAME + ".exe" <==> platform == Windows
    ensures r == SERVER_NAME <==> platform != Windows
  {
    var ext := match platform
      case Mac | Linux => ""
      case Windows => ".exe";
    SERVER_NAME + ext
  }

  /** How the downloaded asset is unpacked on `platform`. */
  function DownloadFileType(platform: Os): (t: DownloadedFileType)
    ensures t == Zip <==> platform == Windows
    ensures t == GzipTar <==> platform != Windows
  {
    if platform == Windows then Zip else GzipTar
  }

  /** The archive kind the download is unpacked as agrees with the asset's file extension. */
  lemma DownloadFileTypeMatchesAsset(platform: Os, arch: Architecture, musl: bool)
    requires AssetName(platform, arch, musl).Ok?
    ensures DownloadFileType(platform) == Zip <==> EndsWith(AssetName(platform, arch, musl).value, ".zip")
    ensures DownloadFileType(platform) == GzipTar <==> EndsWith(AssetName(platform, arch, musl).value, ".tar.gz")
  {
    AssetNameArchive(platform, arch, musl);
  }

  /** The first asset called `name`, in the release's order. */
  function FindAsset(assets: seq<Asset>, name: string): (r: Option<Asset>)
    ensures r.None? <==> forall i :: 0 <= i < |assets| ==> assets[i].name != name
    ensures r.Some? ==> exists i :: 0 <= i < |assets| && assets[i] == r.value &&
                          r.value.name == name && forall j :: 0 <= j < i ==> assets[j].name != name
  {
    if assets == [] then None
    else if assets[0].name == name then Some(assets[0])
    else
      var r := FindAsset(assets[1..], name);
      assert r.Some? ==> exists i :: 1 <= i < |assets| && assets[i] == r.value &&
                           r.value.name == name && forall j :: 0 <= j < i ==> assets[j].name != name by {
        if r.Some? {
          var k :| 0 <= k < |assets[1..]| && assets[1..][k] == r.value &&
                   r.value.name == name && forall j :: 0 <= j < k ==> assets[1..][j].name != name;
          assert forall j :: 1 <= j < k + 1 ==> assets[j].name != name by {
            forall j | 1 <= j < k + 1 ensures assets[j].name != name {
              assert assets[j] == assets[1..][j - 1];
            }
          }
        }
      }
      r
  }

  /**
   * The position of the first directory entry that could not be loaded, or
   * the length of the listing when all of them could.
   */
  function FirstFailure(listing: seq<Option<string>>): (k: nat)
    ensures k <= |listing|
    ensures forall i :: 0 <= i < k ==> listing[i].Some?
    ensures k < |listing| ==> listing[k].None?
  {
    if listing == [] || listing[0].None? then 0 else 1 + FirstFailure(listing[1..])
  }

  /** The names of the entries of `listing` that were loaded. */
  function Loaded(listing: seq<Option<string>>): set<string> {
    set i | 0 <= i < |listing| && listing[i].Some? :: listing[i].value
  }

  /** Reading a listing in two parts loads the names of both parts. */
  lemma LoadedAppend(a: seq<Option<string>>, b: seq<Option<string>>)
    ensures Loaded(a + b) == Loaded(a) + Loaded(b)
  {
    forall n | n in Loaded(a + b) ensures n in Loaded(a) + Loaded(b) {
      var i :| 0 <= i < |a + b| && (a + b)[i] == Some(n);
      if i >= |a| {
        assert b[i - |a|] == Some(n);
      }
    }
    forall n | n in Loaded(a) ensures n in Loaded(a + b) {
      var i :| 0 <= i < |a| && a[i] == Some(n);
      assert (a + b)[i] == Some(n);
    }
    forall n | n in Loaded(b) ensures n in Loaded(a + b) {
      var i :| 0 <= i < |b| && b[i] == Some(n);
      assert (a + b)[|a| + i] == Some(n);
    }
  }

  /** The extension's view of the world: its cache, and the working directory. */
  datatype State = State(cache: Option<string>, entries: set<string>, files: set<string>)

  /** What one resolution returns, and the state it leaves behind. */
  datatype Resolution = Resolution(result: Result<string>, after: State)

  /** Whether the resolution has to go to the release: nothing on the search path, no usable cache. */
  predicate MustInstall(s: State, h: HostAnswers) {
    h.which.None? && !(s.cache.Some? && s.cache.value in s.files)
  }

  /**
   * Whether the installation gets as far as the clean-up: there is an asset
   * for this host, and the binary either is already a file or downloads.
   */
  predicate BinaryInPlace(s: State, h: HostAnswers) {
    MustInstall(s, h) && AssetToInstall(h).Some? &&
    (BinaryName(h.os) in s.files || h.download(AssetToInstall(h).value.downloadUrl, DownloadFileType(h.os)))
  }

  /** Whether `listing` names exactly the `entries` of a directory. */
  predicate Lists(listing: seq<Option<string>>, entries: set<string>) {
    Loaded(listing) == entries
  }

  /** The release asset to install, if the release could be fetched and has one for this host. */
  function AssetToInstall(h: HostAnswers): Option<Asset> {
    if h.release.Err? then None
    else match AssetName(h.os, h.arch, h.musl)
      case Err(_) => None
      case Ok(name) => FindAsset(h.release.value.assets, name)
  }

  /**
   * Finding the server binary: on the worktree's search path, else at the
   * cached path if that is still a file, else by installing the release
   * asset for this platform into the working directory (downloading it only
   * if the binary is not already there), deleting every other entry of the
   * directory that is not a regular file, and remembering the binary's path.
   */
  function Resolve(s: State, h: HostAnswers): (res: Resolution)
    // precedence: the search path, then a cached path that is still a file
    ensures h.which.Some? ==> res == Resolution(Ok(h.which.value), s)
    ensures h.which.None? && s.cache.Some? && s.cache.value in s.files ==>
      res == Resolution(Ok(s.cache.value), s)
    // no release, unsupported platform or no matching asset: fail, touching nothing
    ensures MustInstall(s, h) && AssetToInstall(h).None? ==> res.result.Err? && res.after == s
    // a failed download fails before anything is deleted
    ensures MustInstall(s, h) && AssetToInstall(h).Some? && BinaryName(h.os) !in s.files &&
            !h.download(AssetToInstall(h).value.downloadUrl, DownloadFileType(h.os)) ==>
      res.result.Err? && res.after == s
    // an unreadable directory fails once the binary is in place, before anything is deleted
    ensures BinaryInPlace(s, h) && h.listing.Err? ==>
      res.result.Err? && res.after == State(s.cache, s.entries + {BinaryName(h.os)}, s.files + {BinaryName(h.os)})
    // an installation succeeds exactly when every step of it does
    ensures MustInstall(s, h) ==>
      (res.result.Ok? <==> BinaryInPlace(s, h) && h.listing.Ok? &&
                           FirstFailure(h.listing.value) == |h.listing.value| && h.makeExecutableOk)
    // the binary, once in place, is never removed; no regular file is ever removed
    ensures BinaryInPlace(s, h) ==> BinaryName(h.os) in res.after.files
    ensures s.files <= res.after.files
    // nothing but the binary is ever created, and the directory stays well formed
    ensures res.after.entries <= s.entries + {BinaryName(h.os)}
    ensures res.after.files <= s.files + {BinaryName(h.os)}
    ensures s.files <= s.entries ==> res.after.files <= res.after.entries
    // after an installation, the listed entries other than the binary and the regular files are gone
    ensures MustInstall(s, h) && res.result.Ok? ==>
      res.after.files == s.files + {BinaryName(h.os)} &&
      res.after.entries == (s.entries + {BinaryName(h.os)}) -
                           (Loaded(h.listing.value) - {BinaryName(h.os)} - s.files)
    ensures MustInstall(s, h) && res.result.Ok? && s.files <= s.entries &&
            Lists(h.listing.value, s.entries + {BinaryName(h.os)}) ==>
      res.after.entries == s.files + {BinaryName(h.os)}
    // once the binary is in place and the directory listed, the deletions made stand, whatever happens next
    ensures BinaryInPlace(s, h) && h.listing.Ok? ==>
      res.after.files == s.files + {BinaryName(h.os)} &&
      res.after.entries == (s.entries + {BinaryName(h.os)}) -
                           (Loaded(h.listing.value[..FirstFailure(h.listing.value)]) - {BinaryName(h.os)} - s.files)
    // the cache changes only on success, to the path returned
    ensures res.after.cache != s.cache ==>
      res.result == Ok(BinaryName(h.os)) && res.after.cache == Some(BinaryName(h.os))
    ensures res.result.Err? ==> res.after.cache == s.cache
    // an installation succeeds with the binary's name and caches it
    ensures MustInstall(s, h) && res.result.Ok? ==>
      res.result.value == BinaryName(h.os) && res.after.cache == Some(BinaryName(h.os))
  {
    if h.which.Some? then Resolution(Ok(h.which.value), s)
    else if s.cache.Some? && s.cache.value in s.files then Resolution(Ok(s.cache.value), s)
    else if h.release.Err? then Resolution(Err(h.release.error), s)
    else match AssetName(h.os, h.arch, h.musl)
      case Err(e) => Resolution(Err(e), s)
      case Ok(name) =>
        match FindAsset(h.release.value.assets, name)
        case None => Resolution(Err("no asset found matching " + name), s)
        case Some(asset) =>
          var bin := BinaryName(h.os);
          if bin !in s.files && !h.download(asset.downloadUrl, DownloadFileType(h.os)) then
            Resolution(Err("failed to download file"), s)
          else
            var installed := State(s.cache, s.entries + {bin}, s.files + {bin});
            match h.listing
            case Err(e) => Resolution(Err("failed to list working directory " + e), installed)
            case Ok(listing) =>
              var k := FirstFailure(listing);
              var removed := Loaded(listing[..k]) - {bin} - installed.files;
              var cleaned := State(s.cache, installed.entries - removed, installed.files);
              if k < |listing| then Resolution(Err("failed to load directory entry"), cleaned)
              else if !h.makeExecutableOk then Resolution(Err("failed to make the binary executable"), cleaned)
              else Resolution(Ok(bin), cleaned.(cache := Some(bin)))
  }

  /**
   * Once a resolution has installed the binary, the next one (with nothing on
   * the search path) returns the cached path and changes nothing.
   */
  lemma NextResolutionUsesCache(s: State, h: HostAnswers, next: HostAnswers)
    requires MustInstall(s, h) && Resolve(s, h).result.Ok? && next.which.None?
    ensures Resolve(Resolve(s, h).after, next) == Resolution(Resolve(s, h).result, Resolve(s, h).after)
  {
  }

  /** A binary already in the working directory is not downloaded again: the download's verdict is irrelevant. */
  lemma DownloadSkippedWhenPresent(s: State, h: HostAnswers, download: (string, DownloadedFileType) -> bool)
    requires MustInstall(s, h) && BinaryName(h.os) in s.files
    ensures Resolve(s, h.(download := download)) == Resolve(s, h)
  {
  }

  /**
   * Tries to delete the entries of `listing`, in order, except `keep`; the
   * deletion of a regular file fails and is ignored.  Stops with `false` at
   * the first entry that could not be loaded.
   */
  method CleanUp(dir: WorkDir, listing: seq<Option<string>>, keep: string) returns (loaded: bool)
    requires dir.Valid()
    modifies dir
    ensures dir.Valid()
    ensures loaded <==> FirstFailure(listing) == |listing|
    ensures keep in old(dir.entries) ==> keep in dir.entries
    ensures dir.entries == old(dir.entries) - (Loaded(listing[..FirstFailure(listing)]) - {keep} - old(dir.files))
    ensures dir.files == old(dir.files)
  {
    var i := 0;
    while i < |listing|
      invariant 0 <= i <= |listing|
      invariant forall j :: 0 <= j < i ==> listing[j].Some?
      invariant dir.Valid()
      invariant keep in old(dir.entries) ==> keep in dir.entries
      invariant dir.entries == old(dir.entries) - (Loaded(listing[..i]) - {keep} - old(dir.files))
      invariant dir.files == old(dir.files)
    {
      if listing[i].None? {
        return false;
      }
      var name := listing[i].value;
      if name != keep {
        dir.RemoveAll(name);
      }
      assert listing[..i + 1] == listing[..i] + [listing[i]];
      LoadedAppend(listing[..i], [listing[i]]);
      i := i + 1;
    }
    return true;
  }

  /** The extension object; the only state it keeps is the path of the binary it installed. */
  class NeoCMakeExt {
    var cachedBinaryPath: Option<string>

    /** A fresh extension has nothing cached. */
    constructor ()
      ensures cachedBinaryPath == None
    {
      cachedBinaryPath := None;
    }

    /** Finds the server binary, installing it into `dir` when necessary; see `Resolve`. */
    method LanguageServerBinaryPath(dir: WorkDir, host: HostAnswers) returns (r: Result<string>)
      requires dir.Valid()
      modifies this, dir
      ensures dir.Valid()
      ensures var res := Resolve(State(old(cachedBinaryPath), old(dir.entries), old(dir.files)), host);
        r == res.result && cachedBinaryPath == res.after.cache &&
        dir.entries == res.after.entries && dir.files == res.after.files
    {
      if host.which.Some? {
        return Ok(host.which.value);
      }
      if cachedBinaryPath.Some? && dir.IsFile(cachedBinaryPath.value) {
        return Ok(cachedBinaryPath.value);
      }
      if host.release.Err? {
        return Err(host.release.error);
      }
      var release := host.release.value;
      var assetName := AssetName(host.os, host.arch, host.musl);
      if assetName.Err? {
        return Err(assetName.error);
      }
      var found := FindAsset(release.assets, assetName.value);
      if found.None? {
        return Err("no asset found matching " + assetName.value);
      }
      var asset := found.value;
      var binaryPath := BinaryName(host.os);
      if !dir.IsFile(binaryPath) {
        var fileType := DownloadFileType(host.os);
        var ok := dir.Download(asset.downloadUrl, binaryPath, fileType, host.download(asset.downloadUrl, fileType));
        if !ok {
          return Err("failed to download file");
        }
      }

      // Clean up old versions: delete every entry but the binary and the regular files.
      if host.listing.Err? {
        return Err("failed to list working directory " + host.listing.error);
      }
      var loaded := CleanUp(dir, host.listing.value, binaryPath);
      if !loaded {
        return Err("failed to load directory entry");
      }

      if !host.makeExecutableOk {
        return Err("failed to make the binary executable");
      }
      cachedBinaryPath := Some(binaryPath);
      return Ok(binaryPath);
    }

    /** The command that starts the server: the resolved binary, speaking over stdio. */
    method LanguageServerCommand(dir: WorkDir, host: HostAnswers) returns (r: Result<Command>)
      requires dir.Valid()
      modifies this, dir
      ensures dir.Valid()
      ensures var res := Resolve(State(old(cachedBinaryPath), old(dir.entries), old(dir.files)), host);
        (r.Ok? <==> res.result.Ok?) &&
        (r.Ok? ==> r.value == Command(res.result.value, ["stdio"], [])) &&
        cachedBinaryPath == res.after.cache && dir.entries == res.after.entries && dir.files == res.after.files
    {
      var path := LanguageServerBinaryPath(dir, host);
      if path.Err? {
        return Err(path.error);
      }
      return Ok(Command(path.value, ["stdio"], []));
    }
  }
}
