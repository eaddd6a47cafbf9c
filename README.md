# neocmakelsp resolver for the Zed editor, modelled in Dafny

The Zed extension `zed_neocmake` does not run a language server itself. It
finds or installs the `neocmakelsp` binary and gives the editor the command
that starts it. All of its logic is in `src/cmake.rs` and comes in two parts:

* **Asset selection.** The current platform (operating system, architecture,
  and on Linux whether the C library is musl) determines which file of the
  server's GitHub release to download. Unsupported combinations are errors.
* **Binary resolution.** The server is looked up in this order:
  1. the worktree's search path;
  2. the path cached by an earlier installation, if it is still a regular file;
  3. installation of the release asset into the extension's working directory.

  Installation downloads only when the binary is not already there. It then
  tries to delete every other entry of the directory with a recursive
  directory removal. That removal fails on regular files and its errors are
  ignored, so only non-file entries (directories) actually go. Finally it
  marks the binary executable and caches its path. The launch command is that path with the single argument
  `stdio`.

The core is small. The rest of the file calls the host: release lookup,
download, `chmod` and status reporting. The model turns those calls into
inputs.

Files:

* `wrappers.dfy`: `Option` and `Result`. As in the host API, the error of a `Result` is a message string.
* `host.dfy`: the host API types (`Os`, `Architecture`, `DownloadedFileType`, `Asset`, `Release`, `Command`). It also defines `HostAnswers`, which holds every answer the host gives during one resolution, and the class `WorkDir`: the working directory as a set of entry names and the subset that are regular files.
* `cmake.dfy`: the extension. `AssetName`, `BinaryName` and `DownloadFileType` are pure functions, with lemmas about them. `Resolve` is a pure specification of one resolution. `NeoCMakeExt` is the extension object: its field `cachedBinaryPath` is updated in place, and its method `LanguageServerBinaryPath` is proved equal to `Resolve`. `CleanUp` is the loop that deletes old versions.

The cache is not kept pointing at an existing file: the file can disappear
after being cached, so each call checks it again. What `Resolve` proves is
that when the cache changes, it points to the binary, which the same call
left in place as a regular file.

## Model

| member | source | states |
|---|---|---|
| NeoCMake.AssetName | src/cmake.rs:17-49 | an asset name exists exactly when the platform is macOS or the architecture is aarch64 or x86_64; on macOS it is always `neocmakelsp-universal-apple-darwin.tar.gz`, whatever the architecture and C library |
| NeoCMake.AssetNameTable | src/cmake.rs:17-49 | the whole table as literal names: macOS (any architecture) `neocmakelsp-universal-apple-darwin.tar.gz`; Windows `neocmakelsp-aarch64-pc-windows-msvc.zip` and `neocmakelsp-x86_64-pc-windows-msvc.zip`; Linux `neocmakelsp-{aarch64,x86_64}-unknown-linux-{musl,gnu}.tar.gz` by musl detection; Windows and Linux on x86 are errors |
| NeoCMake.AssetNameArchive | src/cmake.rs:19-46 | a supported asset name ends in `.zip` exactly on Windows and in `.tar.gz` exactly on macOS and Linux |
| NeoCMake.AssetNameLibc | src/cmake.rs:40-46 | an asset name ends in `-linux-musl.tar.gz` exactly on Linux with musl, and in `-linux-gnu.tar.gz` exactly on Linux without it |
| NeoCMake.AssetNameArch | src/cmake.rs:24-38 | on Windows and Linux, the asset name begins `neocmakelsp-aarch64-` exactly for Aarch64 and `neocmakelsp-x86_64-` exactly for X8664 |
| NeoCMake.AssetNameIdentifiesBuild | src/cmake.rs:17-49 | two hosts get the same asset name only if they share the platform; outside macOS, also the architecture; on Linux, also the C library (asset names do not collide) |
| NeoCMake.MuslMattersOnLinuxOnly | src/cmake.rs:40-44 | musl detection leaves the macOS and Windows asset names unchanged, and always changes the Linux one |
| NeoCMake.BinaryName | src/cmake.rs:87-93 | the installed binary is `neocmakelsp.exe` exactly on Windows and `neocmakelsp` exactly elsewhere |
| NeoCMake.DownloadFileType | src/cmake.rs:101-105 | the download is unpacked as a zip exactly on Windows and as a gzipped tarball exactly elsewhere |
| NeoCMake.DownloadFileTypeMatchesAsset | src/cmake.rs:101-105 | the archive kind used for unpacking agrees with the asset's extension (`.zip` / `.tar.gz`) on every supported platform |
| NeoCMake.FindAsset | src/cmake.rs:81-85 | returns nothing exactly when no asset of the release has the wanted name; otherwise returns the first asset in release order with that name |
| NeoCMake.FirstFailure | src/cmake.rs:114-115 | the position of the first directory entry that could not be loaded (all earlier ones loaded), or the listing's length if all loaded |
| NeoCMake.Resolve | src/cmake.rs:51-125 | (1) a search-path hit is returned with the cache and directory unchanged. (2) Otherwise a cached path that is still a regular file is returned, with nothing changed. (3) A missing release, an unsupported platform or no matching asset fails with nothing changed. (4) A failed download fails before any deletion; an unreadable directory fails after the download, before any deletion. (5) An installation succeeds exactly when there is an asset, the binary is present or downloads, every directory entry loads, and marking it executable succeeds. (6) The binary, once in place, is never removed, no regular file is ever removed, and nothing but the binary is created. (7) After a successful installation the regular files are exactly the old ones plus the binary, every other loaded entry that is not a regular file is gone, and with a listing of the whole directory only the regular files and the binary remain. (8) Once the binary is in place and the directory is listed, the directory is stated exactly whatever follows: the deletions made before an entry failed to load, or before marking the binary executable failed, stand. (9) The cache changes only on success, to the returned path |
| NeoCMake.DownloadSkippedWhenPresent | src/cmake.rs:95-109 | when the binary is already a file of the working directory, the outcome does not depend on whether the download would succeed: no download is attempted |
| NeoCMake.NextResolutionUsesCache | src/cmake.rs:56-64 | after a successful installation, the next resolution with nothing on the search path returns the cached path and changes nothing |
| NeoCMake.CleanUp | src/cmake.rs:111-119 | tries to delete, in listing order, every loaded entry except the binary's name. Regular files survive, because their removal fails and the failure is ignored; every other loaded entry is gone. It stops and reports failure at the first entry that cannot be loaded, keeping the deletions already made. The binary is never removed |
| NeoCMake.NeoCMakeExt.constructor | src/cmake.rs:129-133 | a new extension has nothing cached |
| NeoCMake.NeoCMakeExt.LanguageServerBinaryPath | src/cmake.rs:51-125 | the returned result, the new cache and the new directory are exactly those given by `Resolve` for the old cache, the old directory and the host's answers, so every property of `Resolve` holds of the method |
| NeoCMake.NeoCMakeExt.LanguageServerCommand | src/cmake.rs:135-145 | succeeds exactly when resolution does. The command is then the resolved path with arguments exactly `["stdio"]` and an empty environment. Cache and directory change as in `Resolve` |
| Host.WorkDir.RemoveAll | src/cmake.rs:117 | removes the named entry with everything below it when it is not a regular file; a regular file is left in place (the removal fails); a missing entry changes nothing |
| Host.WorkDir.Download | src/cmake.rs:107-108 | on success the binary becomes a regular file of the directory; on failure nothing changes |

## Left out

- Musl detection by reading `/usr/bin/ldd` (src/cmake.rs:11-15) is file I/O. The model takes its outcome as the input `musl`.
- Host calls are not modelled; their answers are inputs in `HostAnswers`. These are the worktree search path lookup, the latest-release lookup and its options (repository name, assets required, no pre-releases), the current platform, the download, the directory listing and marking the file executable. Each either succeeds or fails as the input says.
- Host.WorkDir.Download: the model treats a successful download as creating the binary as a regular file in the working directory. What the host's unpacking actually writes is not visible in the source.
- Installation status reports to the editor (src/cmake.rs:66-69, 96-99) do not affect the result and are left out. So is the `language_server_id` argument, which only they use.
- The source ignores the outcome of each entry's removal (src/cmake.rs:117). The model lets a recursive removal fail on a regular file and succeed on any other entry. A failure deep inside a directory tree is not modelled. Removing a listed name that is no longer there changes nothing.
- Symbolic links are not modelled: an entry is a regular file or not.
- File-system paths are reduced to entry names of the working directory. The cached path is always the binary's name, relative to that directory.
- Error messages are approximate. Contracts state only whether an error occurs.
- The `Extension` trait and `register_extension!` wiring (src/cmake.rs:128-148) are left out. The model keeps `new` as the constructor and `language_server_command` as a method.
