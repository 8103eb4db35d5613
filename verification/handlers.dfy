/** The client's file system handlers. Each remote call is an oracle: the
    client's view of its status, `None` when the call failed. The handlers
    that retry until the server answers take the sequence of replies of
    their successive attempts. */
module Handlers {
  import opened Common
  import opened Paths
  import opened FileSystem
  import opened Proto
  import opened Cache
  import opened Session

  /** The retry loop of `fs_getattr`, `fs_truncate` and `fs_mknod`: call
      until the status is ok. `replies` are the outcomes of the successive
      attempts, one of which is ok; `i` is the index of the first ok one,
      so `i + 1` calls were made. */
  method AwaitOk<T>(replies: seq<Option<T>>) returns (i: nat, v: T)
    requires exists k :: 0 <= k < |replies| && replies[k].Some?
    ensures i < |replies| && replies[i] == Some(v)
    ensures forall j :: 0 <= j < i ==> replies[j].None?
  {
    i := 0;
    while replies[i].None?
      invariant i < |replies|
      invariant forall j :: 0 <= j < i ==> replies[j].None?
      invariant exists k :: i <= k < |replies| && replies[k].Some?
      decreases |replies| - i
    {
      i := i + 1;
    }
    v := replies[i].value;
  }

  /** `Put` of `path` with empty contents, retried until it succeeds.
      `replies` are the outcomes of the successive attempts, one of which is
      ok; `rpcs` are the calls issued, the last one answered ok. */
  method PutEmptyUntilOk(path: string, replies: seq<Option<bool>>) returns (rpcs: seq<Rpc>)
    requires exists k :: 0 <= k < |replies| && replies[k].Some?
    ensures 0 < |rpcs| <= |replies| && replies[|rpcs| - 1].Some?
    ensures forall j :: 0 <= j < |rpcs| - 1 ==> replies[j].None?
    ensures forall j :: 0 <= j < |rpcs| ==> rpcs[j] == PutCall(path, [])
  {
    rpcs := [PutCall(path, [])];
    while replies[|rpcs| - 1].None?
      invariant 0 < |rpcs| <= |replies|
      invariant forall j :: 0 <= j < |rpcs| - 1 ==> replies[j].None?
      invariant forall j :: 0 <= j < |rpcs| ==> rpcs[j] == PutCall(path, [])
      invariant exists k :: |rpcs| - 1 <= k < |replies| && replies[k].Some?
      decreases |replies| - |rpcs|
    {
      rpcs := rpcs + [PutCall(path, [])];
    }
  }

  /** `fs_truncate`: only truncation to size 0 is supported, and is done by
      storing empty contents under the virtual path on the server. A
      non-zero size is refused without any call; size 0 returns 0 once a
      `Put` succeeded. */
  method FsTruncate(path: string, size: int, replies: seq<Option<bool>>) returns (r: int, rpcs: seq<Rpc>)
    requires size == 0 ==> exists k :: 0 <= k < |replies| && replies[k].Some?
    ensures size != 0 ==> r == -EOPNOTSUPP && rpcs == []
    ensures size == 0 ==> r == 0 && 0 < |rpcs| <= |replies| && replies[|rpcs| - 1].Some? &&
                          (forall j :: 0 <= j < |rpcs| - 1 ==> replies[j].None?) &&
                          forall j :: 0 <= j < |rpcs| ==> rpcs[j] == PutCall(path, [])
  {
    if size != 0 {
      return -EOPNOTSUPP, [];
    }
    rpcs := PutEmptyUntilOk(path, replies);
    r := 0;
  }

  /** `fs_mknod`: a new file is an empty `Put` of the virtual path, retried
      until it succeeds; the mode and device are ignored. */
  method FsMknod(path: string, replies: seq<Option<bool>>) returns (r: int, rpcs: seq<Rpc>)
    requires exists k :: 0 <= k < |replies| && replies[k].Some?
    ensures r == 0 && 0 < |rpcs| <= |replies| && replies[|rpcs| - 1].Some?
    ensures forall j :: 0 <= j < |rpcs| - 1 ==> replies[j].None?
    ensures forall j :: 0 <= j < |rpcs| ==> rpcs[j] == PutCall(path, [])
  {
    rpcs := PutEmptyUntilOk(path, replies);
    r := 0;
  }

  /** The fields of `struct stat` that `fs_getattr` fills in. */
  datatype StatBuf = StatBuf(mode: int, nlink: int, size: int, mtime: int)

  const S_IFDIR := 0x4000
  const S_IFREG := 0x8000
  /** Permission bits 0777. */
  const AllAccess := 0x1FF

  /** The `stat` `fs_getattr` reports for a `FileInfo`: -ENOENT when only the
      parent exists, a directory with two links, or a regular file with one
      link and the size and modification time of the `FileInfo`. */
  function AttrOf(info: FileInfo): (r: (int, StatBuf))
    ensures info.dirExists ==> r.0 == -ENOENT
    ensures !info.dirExists && info.isDir ==> r == (0, StatBuf(S_IFDIR + AllAccess, 2, 0, 0))
    ensures !info.dirExists && !info.isDir ==> r == (0, StatBuf(S_IFREG + AllAccess, 1, info.size, info.modtime))
  {
    if info.dirExists then (-ENOENT, StatBuf(0, 0, 0, 0))
    else if info.isDir then (0, StatBuf(S_IFDIR + AllAccess, 2, 0, 0))
    else (0, StatBuf(S_IFREG + AllAccess, 1, info.size, info.modtime))
  }

  /** `fs_getattr`: `Stat` of the path until it succeeds, then the
      attributes of the `FileInfo` received; `rpcs` are the calls issued. */
  method FsGetattr(path: string, replies: seq<Option<FileInfo>>) returns (r: int, st: StatBuf, rpcs: seq<Rpc>)
    requires exists k :: 0 <= k < |replies| && replies[k].Some?
    ensures 0 < |rpcs| <= |replies| && replies[|rpcs| - 1].Some?
    ensures forall j :: 0 <= j < |rpcs| - 1 ==> replies[j].None?
    ensures forall j :: 0 <= j < |rpcs| ==> rpcs[j] == StatCall(path)
    ensures (r, st) == AttrOf(replies[|rpcs| - 1].value)
  {
    var i, info := AwaitOk(replies);
    rpcs := seq(i + 1, _ => StatCall(path));
    r, st := AttrOf(info).0, AttrOf(info).1;
  }

  /** `fs_mkdir`: 0 when the call succeeded, -ENOENT for any failure. */
  function FsMkdir(status: Option<bool>): (r: int)
    ensures r == 0 <==> status.Some?
    ensures r != 0 ==> r == -ENOENT
  {
    if status.Some? then 0 else -ENOENT
  }

  /** `fs_unlink`: 0 when the call succeeded, -ENOENT for any failure. */
  function FsUnlink(status: Option<bool>): (r: int)
    ensures r == 0 <==> status.Some?
    ensures r != 0 ==> r == -ENOENT
  {
    if status.Some? then 0 else -ENOENT
  }

  /** `fs_rmdir`: 0 when the call succeeded, -ENOENT for any failure. */
  function FsRmdir(status: Option<bool>): (r: int)
    ensures r == 0 <==> status.Some?
    ensures r != 0 ==> r == -ENOENT
  {
    if status.Some? then 0 else -ENOENT
  }

  /** `fs_rename`: 0 when the call succeeded, -ENOENT for any failure. */
  function FsRename(status: Option<bool>): (r: int)
    ensures r == 0 <==> status.Some?
    ensures r != 0 ==> r == -ENOENT
  {
    if status.Some? then 0 else -ENOENT
  }

  /** `fs_readdir`: the entries handed to the filler, "." and ".." first and
      then the names received, in order; -EACCES and no entries when the
      call failed. */
  method FsReaddir(status: Option<seq<string>>) returns (r: int, entries: seq<string>)
    ensures status.None? ==> r == -EACCES && entries == []
    ensures status.Some? ==>
      r == 0 && |entries| == |status.value| + 2 && entries[0] == "." && entries[1] == ".." &&
      forall i :: 0 <= i < |status.value| ==> entries[i + 2] == status.value[i]
  {
    if status.None? {
      return -EACCES, [];
    }
    var names := status.value;
    entries := [".", ".."];
    for i := 0 to |names|
      invariant |entries| == i + 2 && entries[0] == "." && entries[1] == ".."
      invariant forall j :: 0 <= j < i ==> entries[j + 2] == names[j]
    {
      entries := entries + [names[i]];
    }
    r := 0;
  }

  /** `fs_open`: bring the cache entry up to date, then start a session on
      a staging copy of it. `r` is 0 exactly when a session was started;
      -EACCES when the staging copy could not be made. */
  method FsOpen(cache: Fs, path: string, stat: Option<FileInfo>, get: Option<seq<byte>>,
                mode: AccessMode, tmpName: string, writes: seq<WriteReply>, closeOk: bool, now: int)
    returns (r: int, cache': Fs, f: OpenFile?)
    ensures r == 0 <==> f != null
    ensures r == 0 || r == -ENOENT || r == -EACCES
    ensures Prepare(cache, path, stat, get, now).err == 0 && f == null ==> r == -EACCES
    ensures Prepare(cache, path, stat, get, now).err != 0 ==>
      r == Prepare(cache, path, stat, get, now).err && cache' == Prepare(cache, path, stat, get, now).cache
    ensures f != null ==>
      var prepared := Prepare(cache, path, stat, get, now).cache;
      fresh(f) && f.cachePath == AdjustPath(path) && f.tmpPath == tmpName && f.mode == mode && !f.writtenTo &&
      IsFile(prepared, AdjustPath(path)) && IsFile(cache', tmpName) &&
      cache'.files[tmpName] == File(prepared.files[AdjustPath(path)].data, now)
    ensures var prep := Prepare(cache, path, stat, get, now);
      (prep.err == 0 && IsFile(prep.cache, AdjustPath(path)) &&
       !Exists(prep.cache, tmpName) && tmpName != "" && IsDir(prep.cache, Dirname(tmpName)) &&
       WholeWrites(writes) && |prep.cache.files[AdjustPath(path)].data| <= |writes| * BufSize && closeOk) ==> r == 0
    ensures var prepared := Prepare(cache, path, stat, get, now).cache;
      prepared.dirs == cache'.dirs &&
      forall k :: k != tmpName ==>
        (k in cache'.files <==> k in prepared.files) && (k in prepared.files ==> cache'.files[k] == prepared.files[k])
  {
    var prep := Prepare(cache, path, stat, get, now);
    if prep.err != 0 {
      return prep.err, prep.cache, null;
    }
    f, cache' := OpenAtomic(prep.cache, AdjustPath(path), mode, tmpName, writes, closeOk, now);
    r := if f == null then -EACCES else 0;
  }

  /** `fs_flush`: when the session was written to, read the staging file
      and `Put` it under the virtual path. The contents go out as a C
      string, so only the bytes before the first zero byte are sent.
      Returns the errno and the calls issued. */
  function FsFlush(cache: Fs, path: string, f: OpenFile, fsyncOk: bool, readResult: int, put: Option<bool>)
    : (r: (int, seq<Rpc>))
    reads f
    ensures !f.writtenTo ==> r == (0, [])
    ensures f.writtenTo && GetFileContentsAtomic(cache, f.tmpPath, fsyncOk, readResult).None? ==> r == (-EACCES, [])
    ensures f.writtenTo && GetFileContentsAtomic(cache, f.tmpPath, fsyncOk, readResult).Some? ==>
      r.1 == [PutCall(path, CString(cache.files[f.tmpPath].data))] && (r.0 == 0 <==> put.Some?) &&
      (r.0 != 0 ==> r.0 == -EACCES)
  {
    if !f.writtenTo then (0, [])
    else
      var contents := GetFileContentsAtomic(cache, f.tmpPath, fsyncOk, readResult);
      if contents.None? then (-EACCES, [])
      else
        var calls := [PutCall(path, CString(contents.value))];
        if put.None? then (-EACCES, calls) else (0, calls)
  }

  /** `fs_release`: commit the staging file onto the cache entry. */
  function FsRelease(cache: Fs, f: OpenFile, fsyncOk: bool, closeOk: bool): (r: (int, Fs))
    ensures r.0 == 0 || r.0 == -1
    ensures r.0 != 0 ==> r.1 == cache
    ensures r.0 == 0 && IsFile(cache, f.tmpPath) ==>
      IsFile(r.1, f.cachePath) && r.1.files[f.cachePath] == cache.files[f.tmpPath]
  {
    CloseAtomic(cache, f, fsyncOk, closeOk)
  }
}
