# Remote file system with a local cache, modelled in Dafny

The system is a user-space file system. A FUSE client (`client/main.cc`)
presents a remote namespace as a local mount. A gRPC server
(`server/main.go`) stores that namespace under a root directory on its own
disk. The client keeps a local cache of file contents under `cache/`:

- `open` asks the server for the file's metadata. It then fetches the
  contents with `Get` when there is no cached copy, or when the cached copy
  is stale, judged in whole seconds.
- All reads and writes of an open file go to a private staging copy in
  `tmp/`.
- `flush` pushes the staged bytes to the server with `Put`, if the file was
  written to.
- `release` syncs the staging file and renames it onto the cache entry.

This project models both sides over one abstract file system value:

- `FileSystem.Fs` holds the regular files (bytes and a modification time in
  nanoseconds) and the set of directories, keyed by path.
- The system calls the code relies on (`stat`, `mkdir`, `open` with
  `O_CREAT|O_EXCL`, `fopen` for writing, `rename`, Go's `os.Remove`) are
  functions from a state to an errno and a new state.
- Path strings follow glibc `dirname` (`Paths`) on the client and Go's
  `path.Join`/`path.Clean`/`path.Dir` (`GoPath`) on the server.

Every remote call is an oracle: the client's view of a call is `None` when
its status is not ok, otherwise the reply's message. `Proto.ToStatus` turns a
server handler's reply into that view. The `System` module uses it to state
the client's results in terms of the server's namespace.

The staleness rule and the open logic are plain functions (`Cache.Prepare`).
The byte copy of `cp`, the retry loops and `readdir`'s filler loop are
methods with loops. `MYFILE` is the class `Session.OpenFile`, whose
`writtenTo` field `fs_write` sets.

Behaviour of the code worth knowing, which the model reproduces:

- **Stat's `direxists` flag.** `direxists` is set when the path itself is
  absent but its parent path (`path.Dir`) exists, as a file or a
  directory. It does not mean "is a directory". `open` then creates an
  empty cache file, when `fopen` can create it, and does no `Get`.
  `getattr` reports `-ENOENT`.
- **Staleness.** The server's modification time (whole seconds) is compared
  with the cached file's `st_mtim.tv_sec`, not with its full timestamp. An
  update on the server within the same second as the cached copy is
  therefore not fetched (`System.UpdateWithinSecondMissed`).
- **Fetched contents.** A fetch writes `strlen` bytes, and a flush sends the
  staged buffer as a C string. So only the bytes before the first zero byte
  travel in either direction (`System.FetchCutsAtZero`).
- **A failed fetch leaves an empty entry.** When `open` finds no cache
  entry, `createFullPath` first makes an empty file. A failed `Get` then
  returns `-ENOENT` but leaves that file behind with the current time. A
  later `open` judges it fresh unless the server's copy is from a later
  second, and serves it empty without a `Get`
  (`System.FailedGetLeavesEmptyEntry`).
- **Release.** `release` returns a bare -1, not a negated errno, when
  committing fails.
- **`getattr` with a missing parent.** When the parent directory is also
  missing on the server, every `Stat` fails. `getattr` then retries forever
  instead of reporting not-found (`System.GetattrOfServerStat`).

## Model

| member | source | states |
|---|---|---|
| `Server.AdjustPathUnderRoot` | server/main.go:26-28 | for a normalised root and a bridge path "/a/b", the server path is the root followed by the virtual path, so it stays under the root and the virtual path can be read back from it |
| `GoPath.JoinCanonical` | server/main.go:26-28 | `path.Join` of a normalised root and such a virtual path is their plain concatenation ("/" maps to the root itself) |
| `Server.AdjustPath` | server/main.go:26-28 | `path.Join` of the cache root and the virtual path: empty exactly when both are empty (staying under the root is `Server.AdjustPathUnderRoot`) |
| `Server.MkDir` | server/main.go:31-40 | success (`Success{true}`, no error) exactly when `mkdir` of the server path succeeds; otherwise the namespace is unchanged and the error carries the virtual path |
| `Server.RemovePath` | server/main.go:43-52 | the body `RmDir` and `Unlink` share: success exactly when `os.Remove` of the server path succeeds, the new namespace is the one `os.Remove` leaves, and the error carries the virtual path with `os.Remove`'s errno |
| `Server.RmDir` | server/main.go:43-52 | success exactly when `os.Remove` of the server path succeeds (a regular file or an empty directory), after which the path is gone; on failure the namespace is unchanged and the error carries the virtual path |
| `Server.ReadDir` | server/main.go:55-68 | an error and no names exactly when the server path is not a directory; otherwise one name per entry of the directory, and the names are the entries' base names |
| `Server.Stat` | server/main.go:70-84 | an existing path gives its base name, size, modification time in seconds and kind with `direxists` false; a missing path whose `path.Dir` exists gives `{"",0,0,false,true}` and no error; otherwise the zero `FileInfo` and an error |
| `Server.StatAgreesWithGet` | server/main.go:70-119 | `Stat` reports a regular file exactly when `Get` succeeds, and then its size is the length of the contents `Get` returns |
| `Server.Rename` | server/main.go:87-97 | success exactly when `rename` of the two server paths succeeds; a renamed directory then sits at the new path and the old path is gone; on failure the namespace is unchanged and the error carries both virtual paths |
| `FileSystem.RenameMovesDir` | server/main.go:87-97 | `rename` of a directory succeeds when the target is missing or an empty directory inside a directory and neither path lies inside the other; on success every file and directory of the subtree sits at its relocated path, and the old path is gone |
| `Server.Unlink` | server/main.go:100-109 | same rule as `RmDir` (both use `os.Remove`) |
| `Server.Get` | server/main.go:112-119 | the whole contents exactly when the server path is a regular file; otherwise no bytes and an error |
| `Server.Put` | server/main.go:122-159 | success exactly when every step worked; a later `Get` then returns the contents, and only the target changed; any failing step leaves everything except the temporary file unchanged; when all the I/O steps succeed and the target's directory exists (and the target is not a directory), success is certain |
| `Cache.AdjustPath` | client/main.cc:153-160 | the cache path is "cache", a slash, then the virtual path |
| `Cache.AdjustPathInjective` | client/main.cc:153-160 | every cache path lies inside "cache", and distinct virtual paths get distinct cache paths |
| `Cache.Mkdirp` | client/main.cc:129-145 | an existing path is left alone with success; on success the path exists (made as a directory when it was missing, inside a directory); files never change, every directory created is the path or one of its `dirname` ancestors, and a well-formed disk (every entry inside an existing directory) stays well-formed |
| `Cache.MkdirpMakesAncestors` | client/main.cc:129-145 | on a well-formed disk, after a successful `mkdirp` the path and every one of its `dirname` ancestors exist |
| `Cache.MkdirpIdempotent` | client/main.cc:129-145 | a second `mkdirp` of a path that succeeded succeeds and changes nothing |
| `Cache.CreateFullPath` | client/main.cc:147-151 | on success the parent exists, and, when the parent is a directory, the path, unless it is a directory, is an empty file; nothing else but new ancestor directories changes; a well-formed disk stays well-formed |
| `Cache.ServeFromCache` | client/main.cc:427-434 | the cached copy is served exactly when the server's modification time in whole seconds, taken as nanoseconds, is not after the cached file's timestamp |
| `Cache.CopyBytes` | client/main.cc:85-116 | the destination always holds a prefix of the source, and the whole source on success, however short the writes were; success is certain when every write takes a whole buffer and there are enough of them; writes that all fail copy nothing |
| `Cache.Cp` | client/main.cc:70-127 | fails and changes nothing when the source is missing or the destination exists (`O_EXCL`); on success the destination is a new file holding exactly the source's bytes; only the destination ever changes, and a partial copy left behind is a prefix of the source |
| `Cache.StoreFetched` | client/main.cc:445-448 | when `fopen` can open the entry, it holds the fetched bytes before the first zero byte; otherwise the cache is unchanged |
| `Cache.Fetch` | client/main.cc:438-448 | a failed `Get` gives -ENOENT and leaves the cache alone; a successful one stores the contents |
| `Cache.Prepare` | client/main.cc:392-448 | a failed `Stat` is -ENOENT with no `Get`; `direxists` makes an empty cache file, when `fopen` can create it, with no `Get`; a cached entry is fetched exactly when it is stale and otherwise served untouched; a missing entry gets its parent directories and is fetched, or gives -EACCES; another `stat` error gives -EACCES; a failed `Get` gives -ENOENT and keeps the entry as it was, or the empty file `createFullPath` made; a successful fetch leaves the contents up to the first zero byte; nothing else in the cache changes, and a well-formed cache stays well-formed |
| `Session.OpenFile.constructor` | client/main.cc:51-62 | a new session is not yet written to |
| `Session.OpenAtomic` | client/main.cc:324-342 | a session is started exactly when the staging copy could be made; the staging file then holds the cache entry's bytes; only the staging path changes |
| `Session.PRead` | client/main.cc:460-465 | `pread` returns up to `size` bytes from the offset, fewer at the end of the file and none past it |
| `Session.PWrite` | client/main.cc:467-473 | `pwrite` replaces the bytes at the offset, extends the file when the write ends past it, fills a gap with zero bytes and keeps every other byte |
| `Session.ReadAfterWrite` | client/main.cc:460-473 | reading back the range just written returns the bytes written |
| `Session.WriteOverwrite` | client/main.cc:467-473 | a second write of the same range hides the first |
| `Session.FsRead` | client/main.cc:460-465 | -1 for a write-only session or a negative offset; otherwise the staged bytes `pread` returns and their count |
| `Session.FsWrite` | client/main.cc:467-473 | the session is marked written even when the write fails; -1 and no change for a read-only session, a negative offset or a failing `pwrite`; otherwise the count the device accepted (at most the buffer's length, and short only when the device took fewer) is returned, and the staging file becomes the `pwrite` of exactly those leading bytes (no change for a count of 0) |
| `Session.GetFileContentsAtomic` | client/main.cc:358-379 | the staged bytes exactly when sync, reopen and a full-length read succeed; a short read is a failure, not a truncated result |
| `Session.CloseAtomic` | client/main.cc:344-356 | 0 exactly when sync, close and rename all succeed, and then the cache entry holds the staged file and the staging file is gone; -1 and no change otherwise; success is certain when the entry is a file or missing inside a directory |
| `Handlers.AwaitOk` | client/main.cc:188-197 | the retry loop stops at the first successful reply and returns its message |
| `Handlers.PutEmptyUntilOk` | client/main.cc:220-231 | every call issued is a `Put` of the path with empty contents; the calls stop at the first successful reply, and every earlier reply failed |
| `Handlers.FsTruncate` | client/main.cc:162-181 | a non-zero size gives -EOPNOTSUPP with no call; size 0 returns 0 after `Put`s of the path with empty contents, up to and including the first successful one |
| `Handlers.FsMknod` | client/main.cc:218-234 | returns 0 after `Put`s of the path with empty contents, up to and including the first successful one |
| `Handlers.AttrOf` | client/main.cc:198-213 | `direxists` gives -ENOENT; a directory gives mode `S_IFDIR` with permissions 0777 and two links; anything else gives `S_IFREG` with permissions 0777, one link, and the size and modification time received |
| `Handlers.FsGetattr` | client/main.cc:183-216 | every call issued is a `Stat` of the path, up to and including the first successful one, and every earlier reply failed; the result is the attributes of that reply's `FileInfo` |
| `Handlers.FsMkdir` | client/main.cc:235-246 | 0 exactly when the call succeeded, -ENOENT otherwise |
| `Handlers.FsUnlink` | client/main.cc:247-258 | 0 exactly when the call succeeded, -ENOENT otherwise |
| `Handlers.FsRmdir` | client/main.cc:259-270 | 0 exactly when the call succeeded, -ENOENT otherwise |
| `Handlers.FsRename` | client/main.cc:271-283 | 0 exactly when the call succeeded, -ENOENT otherwise |
| `Handlers.FsReaddir` | client/main.cc:286-322 | a failed call gives -EACCES and no entries; otherwise ".", "..", then the names received in order |
| `Handlers.FsOpen` | client/main.cc:381-458 | the errors of the preparation are returned as they are; otherwise a session is started on a staging copy of the prepared cache entry (0), or -EACCES when the copy fails; success is certain when the entry is a file and the copy can be made |
| `Handlers.FsFlush` | client/main.cc:476-503 | nothing is sent and 0 is returned unless the session was written to; a failed snapshot gives -EACCES with no call; otherwise exactly one `Put` of the staged bytes before the first zero byte, and 0 exactly when it succeeds (-EACCES otherwise) |
| `Handlers.FsRelease` | client/main.cc:505-509 | 0 or -1; on success the cache entry holds the staged file, on failure nothing changes |
| `Common.Seconds` | client/main.cc:429 | whole seconds rounded down, as `tv_sec` and Go's `Unix()` report them |
| `Common.CString` | client/main.cc:446-447 | the bytes a C string keeps: a prefix with no zero byte, ending just before the first zero byte |
| `Common.CStringCut` | client/main.cc:446-447 | a buffer with a zero byte loses everything from its first zero byte |
| `System.MkdirEndToEnd` | client/main.cc:235-246 | client `mkdir` over the server returns 0 exactly when the server can make the directory; failure leaves the namespace unchanged |
| `System.UnlinkEndToEnd` | client/main.cc:247-258 | client `unlink` returns 0 exactly when the server removes the entry, which is then gone |
| `System.RmdirEndToEnd` | client/main.cc:259-270 | client `rmdir` returns 0 exactly when the server removes the entry, which is then gone |
| `System.RenameEndToEnd` | client/main.cc:271-283 | client `rename` returns 0 exactly when the server's rename succeeds; a renamed file's record moves to the new path, and a renamed directory is at the new path with the old one gone |
| `System.GetattrOfServerStat` | client/main.cc:183-216 | `getattr` over the server's `Stat`: a regular file's size and modification time in seconds, a directory, -ENOENT when only the parent exists; every `Stat` fails exactly when the parent is missing too |
| `System.UpdateWithinSecondMissed` | client/main.cc:427-434 | a server copy newer than the cached copy within the same second is not fetched |
| `System.NewerSecondRefetches` | client/main.cc:427-448 | a server copy modified in a later second is fetched and stored |
| `System.FetchRoundTrip` | client/main.cc:438-448 | whenever `open` fetches a server file with no zero byte, the cache entry holds exactly the server's contents |
| `System.FetchCutsAtZero` | client/main.cc:445-448 | a fetched file with a zero byte is stored cut short just before it |
| `System.FailedGetLeavesEmptyEntry` | client/main.cc:412-448 | a first `open` whose `Get` fails returns -ENOENT and leaves an empty cache file stamped now; the next `open` serves it with no `Get` unless the server's copy is from a later second |
| `System.OpenNewFileSkipsGet` | client/main.cc:405-409 | opening a path absent on the server, whose parent path the server has, creates an empty cache file and issues no `Get` |
| `System.FlushReachesServer` | client/main.cc:476-503 | after a successful flush of staged bytes with no zero byte, the server's `Get` returns exactly those bytes |
| `System.MknodCreatesEmptyFile` | client/main.cc:218-234 | `mknod` over the server's `Put`: after failed attempts, a completed one gives 0, every call sent was an empty `Put` of the path, and the server's `Get` then returns no bytes and no error |
| `System.TruncateEmptiesFile` | client/main.cc:162-181 | `truncate` to 0 over the server's `Put`: 0, only empty `Put`s of the path sent, and the server's `Stat` then reports a regular file of size 0, whatever it held before |
| `System.WriteReleaseReopen` | client/main.cc:467-509 | a non-empty write the device takes whole, release, then open again while the server's copy is not newer: the new staging copy holds the written file, and reading the written range returns the bytes written |
| `System.FirstOpenReadsServerBytes` | client/main.cc:381-458 | the first open of a path whose missing cache directories `mkdirp` can make creates them, fetches the file, and reading the whole file returns exactly the server's bytes (when they hold no zero byte) |

## Left out

- Transport and process plumbing are not modelled: gRPC channels, stubs and
  the server's listener, FUSE registration and `main` (client/main.cc:511-548,
  server/main.go:164-177), and debug logging.
- Retry loops that never end are outside the model. The loops of `getattr`,
  `truncate` and `mknod` run over a finite sequence of replies, one of which
  is ok.
- Concurrency is not modelled: parallel handler threads, and races on the
  cache directory between concurrent opens and releases.
- The durability of `fsync` is not modelled; a sync is only a success flag.
- `mktemp` and `ioutil.TempFile` names are parameters. The model does not
  establish their uniqueness, though `O_EXCL` still refuses a name that
  exists.
- Flags passed to `open` other than the access mode (`O_TRUNC`, `O_APPEND`,
  ...) are not modelled. Reopening the staging copy with them is taken to
  succeed.
- `Cache.Cp`: read errors other than reading a directory are not modelled.
  A copy that needs more write replies than given counts as a failure.
- `Cache.StoreFetched`: the count `fwrite` returns is not checked by the
  source, and the model takes the write of fetched contents to the local
  cache disk to complete. A short `fwrite` (a full local disk) is not
  modelled.
- `System.WriteReleaseReopen` covers a non-empty write that the device
  takes whole. A write of no bytes leaves the staging file's timestamp
  unchanged, so whether the reopen fetches again then depends on it.
- `Session.FsRead` and `Session.FsWrite` require the staging file to exist
  on disk. The source's open descriptor would stay usable even if the file
  were renamed away.
- Directories carry no size or modification time: they report 0
  (`FileSystem.SizeOf`, `FileSystem.MtimeOf`).
- `Server.Rename` uses POSIX `rename` semantics. Newer Go versions also
  refuse to rename onto an existing directory; that extra refusal is not
  modelled.
- `Server.AdjustPathUnderRoot` is proved only for a normalised root and a
  virtual path made of plain names. `path.Clean` is modelled in full, but
  nothing is proved for paths with "." or ".." components.
- Memory management (`new`/`delete`/`malloc`) is not modelled. A failed
  `fopen` of a fetched entry is followed in the source by `fwrite` and
  `fclose` on the null stream, which would crash the client. The model
  treats both as doing nothing, so the cache stays as it was. The same
  goes for `fclose` of the null stream in `createFullPath` and in the
  `direxists` branch of `open` (client/main.cc:406-407), which is reached
  when the cache directory of the path is missing: the model leaves the
  cache unchanged there, and the open then fails with `-EACCES` when the
  staging copy cannot be made.
  The missing return values of `mkdirp` and `createFullPath` are treated as
  success.
- The errno of a failed write, sync, chmod or close in `Put` is left open
  (`Proto.IoError`).
- Permission bits (`0777`, `0666`, `Chmod`) and ownership are not modelled.
- Paths are keys as spelled, so a non-canonical spelling such as
  "cache//a" is a distinct key. The system calls do not require a disk to
  be well-formed (`FileSystem.WellFormed`), and properties that need it say
  so. The clock is a parameter (`now`).
