/** The client and the server together: the client's view of each call is
    the status of the server handler's reply (`ToStatus`), so the client's
    results can be stated in terms of the server's namespace. */
module System {
  import opened Common
  import opened Paths
  import opened GoPath
  import opened FileSystem
  import opened Proto
  import Server
  import Cache
  import opened Session
  import opened Handlers

  /** `mkdir` through the client succeeds exactly when the server can make
      the directory; a failure leaves the server's namespace as it was. */
  lemma MkdirEndToEnd(ns: Fs, root: string, p: string)
    ensures var (reply, ns') := Server.MkDir(ns, root, p);
            (FsMkdir(ToStatus(reply)) == 0 <==> Mkdir(ns, Server.AdjustPath(root, p)).0 == 0) &&
            (FsMkdir(ToStatus(reply)) != 0 ==> ns' == ns && FsMkdir(ToStatus(reply)) == -ENOENT)
  {
  }

  /** `unlink` through the client succeeds exactly when the server removes
      the entry, which is then gone. */
  lemma UnlinkEndToEnd(ns: Fs, root: string, p: string)
    ensures var (reply, ns') := Server.Unlink(ns, root, p);
            (FsUnlink(ToStatus(reply)) == 0 <==> Remove(ns, Server.AdjustPath(root, p)).0 == 0) &&
            (FsUnlink(ToStatus(reply)) == 0 ==> !Exists(ns', Server.AdjustPath(root, p))) &&
            (FsUnlink(ToStatus(reply)) != 0 ==> ns' == ns)
  {
  }

  /** `rmdir` through the client: the same as `unlink`, since the server
      removes either kind of entry. */
  lemma RmdirEndToEnd(ns: Fs, root: string, p: string)
    ensures var (reply, ns') := Server.RmDir(ns, root, p);
            (FsRmdir(ToStatus(reply)) == 0 <==> Remove(ns, Server.AdjustPath(root, p)).0 == 0) &&
            (FsRmdir(ToStatus(reply)) == 0 ==> !Exists(ns', Server.AdjustPath(root, p))) &&
            (FsRmdir(ToStatus(reply)) != 0 ==> ns' == ns)
  {
  }

  /** `rename` through the client: on success a regular file's record sits
      at the new path, a directory is at the new path, and the old path is
      gone. */
  lemma RenameEndToEnd(ns: Fs, root: string, p: string, q: string)
    ensures var (reply, ns') := Server.Rename(ns, root, p, q);
            var (a, b) := (Server.AdjustPath(root, p), Server.AdjustPath(root, q));
            (FsRename(ToStatus(reply)) == 0 <==> FileSystem.Rename(ns, a, b).0 == 0) &&
            (FsRename(ToStatus(reply)) == 0 && IsFile(ns, a) && a != b ==>
              IsFile(ns', b) && ns'.files[b] == ns.files[a] && !Exists(ns', a)) &&
            (FsRename(ToStatus(reply)) == 0 && IsDir(ns, a) && a != b ==>
              IsDir(ns', b) && !Exists(ns', a)) &&
            (FsRename(ToStatus(reply)) != 0 ==> ns' == ns)
  {
  }

  /** What `getattr` reports for a server path: a regular file with its size
      and its modification time in seconds, a directory, or -ENOENT when
      only the parent exists. When the parent is missing too every `Stat`
      fails, so the retry loop of `getattr` never ends. */
  lemma GetattrOfServerStat(ns: Fs, root: string, p: string)
    ensures var full := Server.AdjustPath(root, p);
            var s := Server.Stat(ns, root, p);
            (ToStatus(s).None? <==> !Exists(ns, full) && !Exists(ns, Dir(full))) &&
            (IsFile(ns, full) ==>
              AttrOf(s.value) == (0, StatBuf(S_IFREG + AllAccess, 1, |ns.files[full].data|, Seconds(ns.files[full].mtime)))) &&
            (IsDir(ns, full) ==> AttrOf(s.value) == (0, StatBuf(S_IFDIR + AllAccess, 2, 0, 0))) &&
            (!Exists(ns, full) && Exists(ns, Dir(full)) ==> AttrOf(s.value).0 == -ENOENT)
  {
  }

  /** The staleness rule compares whole seconds: when the server's copy was
      modified after the cached copy but within the same second, `open`
      serves the cached copy and issues no `Get`. */
  lemma UpdateWithinSecondMissed(cache: Fs, ns: Fs, root: string, p: string, get: Option<seq<byte>>, now: int)
    requires IsFile(cache, Cache.AdjustPath(p)) && IsFile(ns, Server.AdjustPath(root, p))
    requires cache.files[Cache.AdjustPath(p)].mtime < ns.files[Server.AdjustPath(root, p)].mtime
    requires Seconds(cache.files[Cache.AdjustPath(p)].mtime) == Seconds(ns.files[Server.AdjustPath(root, p)].mtime)
    ensures Cache.Prepare(cache, p, ToStatus(Server.Stat(ns, root, p)), get, now) == Cache.Prep(0, cache, false)
  {
  }

  /** A server copy modified in a later second than the cached copy is
      fetched, and the cache then holds its bytes up to the first zero. */
  lemma NewerSecondRefetches(cache: Fs, ns: Fs, root: string, p: string, now: int)
    requires IsFile(cache, Cache.AdjustPath(p)) && IsFile(ns, Server.AdjustPath(root, p))
    requires Seconds(cache.files[Cache.AdjustPath(p)].mtime) < Seconds(ns.files[Server.AdjustPath(root, p)].mtime)
    ensures var r := Cache.Prepare(cache, p, ToStatus(Server.Stat(ns, root, p)), ToStatus(Server.Get(ns, root, p)), now);
            r.getIssued && r.err == 0 &&
            r.cache.files[Cache.AdjustPath(p)] == File(CString(ns.files[Server.AdjustPath(root, p)].data), now)
  {
  }

  /** Whenever `open` fetches a server file without zero bytes, the cache
      entry afterwards holds exactly the server's contents. */
  lemma FetchRoundTrip(cache: Fs, ns: Fs, root: string, p: string, now: int)
    requires IsFile(ns, Server.AdjustPath(root, p)) && 0 !in ns.files[Server.AdjustPath(root, p)].data
    requires !IsDir(cache, Cache.AdjustPath(p))
    requires Cache.Prepare(cache, p, ToStatus(Server.Stat(ns, root, p)), ToStatus(Server.Get(ns, root, p)), now).getIssued
    ensures var r := Cache.Prepare(cache, p, ToStatus(Server.Stat(ns, root, p)), ToStatus(Server.Get(ns, root, p)), now);
            r.err == 0 && r.cache.files[Cache.AdjustPath(p)] == File(ns.files[Server.AdjustPath(root, p)].data, now)
  {
    CStringWhole(ns.files[Server.AdjustPath(root, p)].data);
  }

  /** A fetched file with a zero byte is cut short in the cache. */
  lemma FetchCutsAtZero(cache: Fs, ns: Fs, root: string, p: string, now: int)
    requires IsFile(ns, Server.AdjustPath(root, p)) && 0 in ns.files[Server.AdjustPath(root, p)].data
    requires !IsDir(cache, Cache.AdjustPath(p))
    requires Cache.Prepare(cache, p, ToStatus(Server.Stat(ns, root, p)), ToStatus(Server.Get(ns, root, p)), now).getIssued
    ensures var r := Cache.Prepare(cache, p, ToStatus(Server.Stat(ns, root, p)), ToStatus(Server.Get(ns, root, p)), now);
            var data := ns.files[Server.AdjustPath(root, p)].data;
            r.err == 0 && r.cache.files[Cache.AdjustPath(p)].data < data &&
            data[|r.cache.files[Cache.AdjustPath(p)].data|] == 0
  {
    CStringCut(ns.files[Server.AdjustPath(root, p)].data);
  }

  /** A first `open` whose `Get` fails leaves behind the empty file
      `createFullPath` made, modified now. A later `open` finds that entry
      fresh whenever the server's copy is not from a later second, and
      serves the empty file without a `Get`: one failed fetch hides the
      file's contents. */
  lemma FailedGetLeavesEmptyEntry(cache: Fs, p: string, info: FileInfo, now: int,
                                  info2: FileInfo, get2: Option<seq<byte>>, now2: int)
    requires !info.dirExists && StatErr(cache, Cache.AdjustPath(p)) == ENOENT
    requires Cache.Mkdirp(cache, Dirname(Cache.AdjustPath(p))).0 == 0
    requires !info2.dirExists && info2.modtime <= Seconds(now)
    ensures var r1 := Cache.Prepare(cache, p, Some(info), None, now);
            r1.err == -ENOENT && r1.getIssued &&
            IsFile(r1.cache, Cache.AdjustPath(p)) && r1.cache.files[Cache.AdjustPath(p)] == File([], now) &&
            Cache.Prepare(r1.cache, p, Some(info2), get2, now2) == Cache.Prep(0, r1.cache, false)
  {
    var abs := Cache.AdjustPath(p);
    Cache.MissingParentNotFile(cache, abs, Cache.Mkdirp(cache, Dirname(abs)).1);
    assert IsDir(Cache.CreateFullPath(cache, abs, now).1, Dirname(abs));
  }

  /** Opening a path the server does not have, whose parent path it has,
      creates an empty cache file (when the cache directory exists) and
      never fetches. */
  lemma OpenNewFileSkipsGet(cache: Fs, ns: Fs, root: string, p: string, get: Option<seq<byte>>, now: int)
    requires !Exists(ns, Server.AdjustPath(root, p)) && Exists(ns, Dir(Server.AdjustPath(root, p)))
    requires !IsDir(cache, Cache.AdjustPath(p)) && IsDir(cache, Dirname(Cache.AdjustPath(p)))
    ensures var r := Cache.Prepare(cache, p, ToStatus(Server.Stat(ns, root, p)), get, now);
            !r.getIssued && r.err == 0 &&
            IsFile(r.cache, Cache.AdjustPath(p)) && r.cache.files[Cache.AdjustPath(p)] == File([], now)
  {
  }

  /** Flushing a written session whose staging file has no zero byte, with
      the `Put` handled by the server, leaves the server file holding the
      staged bytes whenever the flush reports success. */
  method FlushReachesServer(cache: Fs, p: string, f: OpenFile, ns: Fs, root: string,
                            tempName: string, io: Server.PutIo, now: int)
    returns (r: int, ns': Fs)
    requires f.writtenTo && IsFile(cache, f.tmpPath) && 0 !in cache.files[f.tmpPath].data
    requires Dirname(tempName) == Server.TempDir && !Exists(ns, tempName)
    ensures r == 0 || r == -EACCES
    ensures r == 0 ==> Server.Get(ns', root, p) == Reply(cache.files[f.tmpPath].data, None)
    ensures r != 0 ==> Server.Get(ns', root, p).err.Some? || Server.Get(ns', root, p) == Server.Get(ns, root, p) ||
                       Server.AdjustPath(root, p) == tempName
  {
    var data := cache.files[f.tmpPath].data;
    var readResult := |data|;
    var staged := GetFileContentsAtomic(cache, f.tmpPath, true, readResult);
    var payload := CString(staged.value);
    CStringWhole(data);
    var reply;
    reply, ns' := Server.Put(ns, root, p, payload, tempName, io, now);
    var flushed := FsFlush(cache, p, f, true, readResult, ToStatus(reply));
    assert flushed.1 == [PutCall(p, payload)];
    r := flushed.0;
  }

  /** `mknod` with the server handling each `Put`: after any number of
      failed attempts, an attempt the server completes makes the client
      return 0 having sent only empty `Put`s of the path, and the server
      then holds an empty file there, so reading it gives no bytes. */
  method MknodCreatesEmptyFile(ns: Fs, root: string, p: string, earlier: seq<Option<bool>>,
                               tempName: string, io: Server.PutIo, now: int)
    returns (r: int, rpcs: seq<Rpc>, ns': Fs)
    requires forall j :: 0 <= j < |earlier| ==> earlier[j].None?
    requires Dirname(tempName) == Server.TempDir && !Exists(ns, tempName) && IsDir(ns, Server.TempDir)
    requires io.syncOk && io.chmodOk && io.closeOk
    requires var full := Server.AdjustPath(root, p);
             full != tempName && !IsRoot(full) && !IsDir(ns, full) && full != "" && IsDir(ns, Dirname(full))
    ensures r == 0 && |rpcs| == |earlier| + 1
    ensures forall j :: 0 <= j < |rpcs| ==> rpcs[j] == PutCall(p, [])
    ensures Server.Get(ns', root, p) == Reply([], None)
  {
    var reply;
    reply, ns' := Server.Put(ns, root, p, [], tempName, io, now);
    var replies := earlier + [ToStatus(reply)];
    assert replies[|earlier|].Some?;
    r, rpcs := FsMknod(p, replies);
  }

  /** `truncate` to size 0 with the server handling each `Put`: the client
      returns 0 having sent only empty `Put`s of the path, and the file the
      server holds there, whatever it held before, is then empty. */
  method TruncateEmptiesFile(ns: Fs, root: string, p: string, earlier: seq<Option<bool>>,
                             tempName: string, io: Server.PutIo, now: int)
    returns (r: int, rpcs: seq<Rpc>, ns': Fs)
    requires forall j :: 0 <= j < |earlier| ==> earlier[j].None?
    requires Dirname(tempName) == Server.TempDir && !Exists(ns, tempName) && IsDir(ns, Server.TempDir)
    requires io.syncOk && io.chmodOk && io.closeOk
    requires var full := Server.AdjustPath(root, p);
             full != tempName && !IsRoot(full) && !IsDir(ns, full) && full != "" && IsDir(ns, Dirname(full))
    ensures r == 0 && |rpcs| == |earlier| + 1
    ensures forall j :: 0 <= j < |rpcs| ==> rpcs[j] == PutCall(p, [])
    ensures var s := Server.Stat(ns', root, p);
            s.err.None? && !s.value.isDir && s.value.size == 0
  {
    var reply;
    reply, ns' := Server.Put(ns, root, p, [], tempName, io, now);
    var replies := earlier + [ToStatus(reply)];
    assert replies[|earlier|].Some?;
    r, rpcs := FsTruncate(p, 0, replies);
  }

  /** A write, then `release`, then `open` again while the server's copy is
      not newer: the new session's staging file holds the written bytes, and
      reading the written range back returns them. */
  method WriteReleaseReopen(cache: Fs, p: string, f: OpenFile, buf: seq<byte>, off: nat, now: int,
                            info: FileInfo, mode: AccessMode, tmpName: string,
                            writes: seq<Cache.WriteReply>, now2: int)
    returns (g: OpenFile?, cache': Fs)
    requires f.mode != ReadOnly && f.cachePath == Cache.AdjustPath(p) && f.tmpPath != f.cachePath
    requires IsFile(cache, f.tmpPath) && IsFile(cache, f.cachePath) && IsDir(cache, Dirname(f.cachePath))
    requires !info.dirExists && info.modtime <= Seconds(now)
    requires !Exists(cache, tmpName) && tmpName != "" && IsDir(cache, Dirname(tmpName))
    requires Cache.WholeWrites(writes) && |PWrite(cache.files[f.tmpPath].data, off, buf)| <= |writes| * Cache.BufSize
    requires buf != []
    modifies f
    ensures g != null && g.cachePath == f.cachePath && g.tmpPath == tmpName && !g.writtenTo
    ensures IsFile(cache', tmpName) && cache'.files[tmpName].data == PWrite(cache.files[f.tmpPath].data, off, buf)
    ensures mode != WriteOnly ==> FsRead(cache', g, |buf|, off) == (|buf|, buf)
  {
    var staged := PWrite(cache.files[f.tmpPath].data, off, buf);
    var r1, cache1 := FsWrite(cache, f, buf, off, |buf|, now);
    assert buf[..|buf|] == buf;
    var (r2, cache2) := FsRelease(cache1, f, true, true);
    assert cache2.files[f.cachePath] == File(staged, now);
    assert !Exists(cache2, tmpName) && IsDir(cache2, Dirname(tmpName));
    var r3;
    r3, cache', g := FsOpen(cache2, p, Some(info), None, mode, tmpName, writes, true, now2);
    assert Cache.Prepare(cache2, p, Some(info), None, now2) == Cache.Prep(0, cache2, false);
    ReadAfterWrite(cache.files[f.tmpPath].data, off, buf);
  }

  /** A path never opened before, whose missing cache directories `mkdirp`
      can make: `open` creates them, fetches the server's contents, and a
      read of the whole file in the new session returns exactly the server's
      bytes (when they hold no zero byte). */
  method FirstOpenReadsServerBytes(cache: Fs, ns: Fs, root: string, p: string, mode: AccessMode,
                                   tmpName: string, writes: seq<Cache.WriteReply>, now: int)
    returns (r: int, cache': Fs, g: OpenFile?)
    requires StatErr(cache, Cache.AdjustPath(p)) == ENOENT && Cache.Mkdirp(cache, Dirname(Cache.AdjustPath(p))).0 == 0
    requires IsFile(ns, Server.AdjustPath(root, p)) && 0 !in ns.files[Server.AdjustPath(root, p)].data
    requires tmpName != "" && tmpName != Cache.AdjustPath(p) && !Exists(cache, tmpName) && IsDir(cache, Dirname(tmpName))
    requires !AncestorOrSelf(tmpName, Dirname(Cache.AdjustPath(p)))
    requires Cache.WholeWrites(writes) && |ns.files[Server.AdjustPath(root, p)].data| <= |writes| * Cache.BufSize
    requires mode != WriteOnly
    ensures r == 0 && g != null && g.cachePath == Cache.AdjustPath(p) && g.tmpPath == tmpName && IsFile(cache', tmpName)
    ensures var data := ns.files[Server.AdjustPath(root, p)].data;
            FsRead(cache', g, |data|, 0) == (|data|, data)
  {
    var data := ns.files[Server.AdjustPath(root, p)].data;
    var stat := ToStatus(Server.Stat(ns, root, p));
    var get := ToStatus(Server.Get(ns, root, p));
    var abs := Cache.AdjustPath(p);
    var prep := Cache.Prepare(cache, p, stat, get, now);
    assert prep.getIssued && get == Some(data);
    CStringWhole(data);
    var made := Cache.CreateFullPath(cache, abs, now).1;
    Cache.MissingParentNotFile(cache, abs, Cache.Mkdirp(cache, Dirname(abs)).1);
    assert IsDir(made, Dirname(abs));
    assert !Exists(prep.cache, tmpName) && IsDir(prep.cache, Dirname(tmpName));
    r, cache', g := FsOpen(cache, p, stat, get, mode, tmpName, writes, true, now);
    assert PRead(data, 0, |data|) == data;
  }
}
