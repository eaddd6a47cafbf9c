/**
 * The parts of the editor's extension API, and of the file system, that the
 * neocmakelsp resolver talks to.  Everything the host decides (what is on the
 * search path, what the latest release holds, whether a download works) is
 * an input to the model, collected in a `HostAnswers` value.
 */
module Host {
  import opened Wrappers

  /** The host's operating systems. */
  datatype Os = Mac | Linux | Windows

  /** The host's processor architectures. */
  datatype Architecture = Aarch64 | X86 | X8664

  /** How a downloaded release asset is unpacked. */
  datatype DownloadedFileType = Gzip | GzipTar | Zip | Uncompressed

  /** One file attached to a GitHub release. */
  datatype Asset = Asset(name: string, downloadUrl: string)

  /** A GitHub release and its assets, in the order the host lists them. */
  datatype Release = Release(version: string, assets: seq<Asset>)

  /** A command the editor runs to start a language server. */
  datatype Command = Command(command: string, args: seq<string>, env: seq<(string, string)>)

  /**
   * The answers of the host for one resolution:
   *  - which: the worktree's search-path lookup of the server's name;
   *  - release: the latest release of the server's repository, or why it could not be fetched;
   *  - os, arch: the current platform;
   *  - musl: whether the C library of a Linux host is musl;
   *  - download: whether downloading the given URL as the given kind of archive succeeds;
   *  - listing: the entries of the working directory, in the order they are read,
   *    `None` standing for an entry that could not be loaded; `Err` if the
   *    directory cannot be listed at all;
   *  - makeExecutableOk: whether marking the binary executable succeeds.
   */
  datatype HostAnswers = HostAnswers(
    which: Option<string>,
    release: Result<Release>,
    os: Os,
    arch: Architecture,
    musl: bool,
    download: (string, DownloadedFileType) -> bool,
    listing: Result<seq<Option<string>>>,
    makeExecutableOk: bool)

  /**
   * The extension's working directory: the names of its entries and those
   * of them that are regular files.
   */
  class WorkDir {
    var entries: set<string>
    var files: set<string>

    ghost predicate Valid()
      reads this
    {
      files <= entries
    }

    constructor (entries: set<string>, files: set<string>)
      requires files <= entries
      ensures Valid()
      ensures this.entries == entries && this.files == files
    {
      this.entries := entries;
      this.files := files;
    }

    /** Whether `name` exists and is a regular file. */
    predicate IsFile(name: string)
      reads this
    {
      name in files
    }

    /**
     * Removes the directory `name` with everything below it.  Removal fails,
     * changing nothing, when `name` is a regular file, and is a no-op when
     * `name` is missing.
     */
    method RemoveAll(name: string)
      requires Valid()
      modifies this
      ensures Valid()
      ensures entries == if name in old(files) then old(entries) else old(entries) - {name}
      ensures files == old(files)
    {
      if name !in files {
        entries := entries - {name};
      }
    }

    /**
     * Downloads `url` and unpacks it as `kind` into the file `name`; `ok` is
     * the host's verdict, and on failure nothing changes.
     */
    method Download(url: string, name: string, kind: DownloadedFileType, succeeds: bool) returns (ok: bool)
      requires Valid()
      modifies this
      ensures Valid()
      ensures ok == succeeds
      ensures ok ==> entries == old(entries) + {name} && files == old(files) + {name}
      ensures !ok ==> entries == old(entries) && files == old(files)
    {
      ok := succeeds;
      if ok {
        entries := entries + {name};
        files := files + {name};
      }
    }
  }
}
