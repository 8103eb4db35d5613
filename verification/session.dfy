/** An open file on the client: a private staging copy of the cache entry
    that reads and writes go to, committed back onto the cache entry when the
    file is released. */
module Session {
  import opened Common
  import opened Paths
  import opened FileSystem
  import opened Cache

  /** The access mode `open` was called with. */
  datatype AccessMode = ReadOnly | WriteOnly | ReadWrite

  /** `MYFILE`: the cache path the session commits to, the staging file its
      descriptor is open on (in `mode`), and whether anything was written. */
  class OpenFile {
    const cachePath: string
    const tmpPath: string
    const mode: AccessMode
    var writtenTo: bool

    constructor (cachePath: string, tmpPath: string, mode: AccessMode)
      ensures this.cachePath == cachePath && this.tmpPath == tmpPath && this.mode == mode
      ensures !writtenTo
    {
      this.cachePath := cachePath;
      this.tmpPath := tmpPath;
      this.mode := mode;
      writtenTo := false;
    }
  }

  /** `size` zero bytes. */
  function Zeros(size: nat): (r: seq<byte>)
    ensures |r| == size && forall i :: 0 <= i < size ==> r[i] == 0
  {
    if size == 0 then [] else Zeros(size - 1) + [0]
  }

  /** The bytes `pread` returns: up to `size` bytes from `off`, fewer at the
      end of the file, none from at or past the end. */
  function PRead(data: seq<byte>, off: nat, size: nat): (r: seq<byte>)
    ensures |r| == if off >= |data| then 0 else if size < |data| - off then size else |data| - off
    ensures forall i :: 0 <= i < |r| ==> r[i] == data[off + i]
  {
    if off >= |data| then []
    else if size < |data| - off then data[off..off + size]
    else data[off..]
  }

  /** The file after `pwrite` of `buf` at `off`: the bytes at `off` replaced,
      the file extended when the write ends past it, and a gap before `off`
      filled with zero bytes. */
  function PWrite(data: seq<byte>, off: nat, buf: seq<byte>): (r: seq<byte>)
    ensures |r| == if off + |buf| > |data| then off + |buf| else |data|
    ensures forall i :: 0 <= i < |buf| ==> r[off + i] == buf[i]
    ensures forall i :: 0 <= i < off ==> r[i] == if i < |data| then data[i] else 0
    ensures forall i :: off + |buf| <= i < |r| ==> r[i] == data[i]
  {
    var padded := if off <= |data| then data else data + Zeros(off - |data|);
    padded[..off] + buf + (if off + |buf| < |padded| then padded[off + |buf|..] else [])
  }

  /** Reading back what was just written returns it. */
  lemma ReadAfterWrite(data: seq<byte>, off: nat, buf: seq<byte>)
    ensures PRead(PWrite(data, off, buf), off, |buf|) == buf
  {
    var r := PRead(PWrite(data, off, buf), off, |buf|);
    assert |r| == |buf|;
    forall i | 0 <= i < |buf| ensures r[i] == buf[i] {}
  }

  /** A second write over the same range hides the first one. */
  lemma WriteOverwrite(data: seq<byte>, off: nat, buf1: seq<byte>, buf2: seq<byte>)
    requires |buf1| == |buf2|
    ensures PWrite(PWrite(data, off, buf1), off, buf2) == PWrite(data, off, buf2)
  {
    var a := PWrite(PWrite(data, off, buf1), off, buf2);
    var b := PWrite(data, off, buf2);
    assert |a| == |b|;
    forall i | 0 <= i < |a| ensures a[i] == b[i] {
      if i >= off + |buf2| {
        assert a[i] == PWrite(data, off, buf1)[i];
      }
    }
  }

  /** `open_atomic`: copy the cache entry to the staging file `tmpName`
      (the name `mktemp` produced; "" when it found none) and start a
      session on it. `null` when the copy fails; a partial copy stays
      behind. Opening the staging copy again with the caller's flags is
      taken to succeed. */
  method OpenAtomic(cache: Fs, path: string, mode: AccessMode, tmpName: string,
                    writes: seq<WriteReply>, closeOk: bool, now: int)
    returns (f: OpenFile?, cache': Fs)
    ensures f != null ==> fresh(f) && f.cachePath == path && f.tmpPath == tmpName && f.mode == mode && !f.writtenTo
    ensures f != null ==> IsFile(cache, path) && IsFile(cache', tmpName) &&
                          cache'.files[tmpName] == File(cache.files[path].data, now)
    ensures !Exists(cache, path) || Exists(cache, tmpName) ==> f == null && cache' == cache
    ensures (IsFile(cache, path) && !Exists(cache, tmpName) && tmpName != "" && IsDir(cache, Dirname(tmpName)) &&
             WholeWrites(writes) && |cache.files[path].data| <= |writes| * BufSize && closeOk) ==> f != null
    ensures cache'.dirs == cache.dirs
    ensures forall k :: k != tmpName ==>
      (k in cache'.files <==> k in cache.files) && (k in cache.files ==> cache'.files[k] == cache.files[k])
  {
    var r;
    r, cache' := Cp(cache, path, tmpName, writes, closeOk, now);
    if r == -1 {
      return null, cache';
    }
    f := new OpenFile(path, tmpName, mode);
  }

  /** `fs_read`: `pread` on the staging file. -1 when the file was opened
      write-only or the offset is negative. */
  function FsRead(cache: Fs, f: OpenFile, size: nat, off: int): (r: (int, seq<byte>))
    requires IsFile(cache, f.tmpPath)
    ensures f.mode == WriteOnly || off < 0 ==> r == (-1, [])
    ensures f.mode != WriteOnly && off >= 0 ==>
      r.0 == |r.1| && r.1 == PRead(cache.files[f.tmpPath].data, off, size)
  {
    if f.mode == WriteOnly || off < 0 then (-1, [])
    else
      var b := PRead(cache.files[f.tmpPath].data, off, size);
      (|b|, b)
  }

  /** `fs_write`: mark the session as written to, then `pwrite` on the
      staging file, returning its result as it is. `accepted` is how many
      bytes the device takes, negative when `pwrite` fails (ENOSPC, EFBIG,
      EIO). A write of no bytes changes nothing. The mark is set even when
      the write fails. */
  method FsWrite(cache: Fs, f: OpenFile, buf: seq<byte>, off: int, accepted: int, now: int)
    returns (r: int, cache': Fs)
    requires IsFile(cache, f.tmpPath)
    modifies f
    ensures f.writtenTo
    ensures f.mode == ReadOnly || off < 0 || accepted < 0 ==> r == -1 && cache' == cache
    ensures f.mode != ReadOnly && off >= 0 && accepted >= 0 ==>
      0 <= r <= |buf| && r <= accepted && (r < |buf| ==> r == accepted) &&
      cache' == if r == 0 then cache else SetFile(cache, f.tmpPath, PWrite(cache.files[f.tmpPath].data, off, buf[..r]), now)
  {
    f.writtenTo := true;
    if f.mode == ReadOnly || off < 0 || accepted < 0 {
      return -1, cache;
    }
    r := if accepted < |buf| then accepted else |buf|;
    cache' := if r == 0 then cache else SetFile(cache, f.tmpPath, PWrite(cache.files[f.tmpPath].data, off, buf[..r]), now);
  }

  /** `get_file_contents_atomic`: sync the staging file, open it again and
      read all `st_size` bytes of it. `readResult` is what `read` returned;
      anything but the whole size is a failure. */
  function GetFileContentsAtomic(cache: Fs, tmpPath: string, fsyncOk: bool, readResult: int): (r: Option<seq<byte>>)
    ensures r.Some? <==> fsyncOk && IsFile(cache, tmpPath) && readResult == |cache.files[tmpPath].data|
    ensures r.Some? ==> r.value == cache.files[tmpPath].data
  {
    if !fsyncOk || !IsFile(cache, tmpPath) then None
    else
      var data := cache.files[tmpPath].data;
      if readResult != |data| then None else Some(data)
  }

  /** `close_atomic`: sync and close the staging file, then rename it onto
      the cache path. 0 exactly when all three succeed; then the cache entry
      holds the staged file. */
  function CloseAtomic(cache: Fs, f: OpenFile, fsyncOk: bool, closeOk: bool): (r: (int, Fs))
    ensures r.0 == 0 <==> fsyncOk && closeOk && FileSystem.Rename(cache, f.tmpPath, f.cachePath).0 == 0
    ensures r.0 != 0 ==> r.0 == -1 && r.1 == cache
    ensures r.0 == 0 && IsFile(cache, f.tmpPath) ==>
      IsFile(r.1, f.cachePath) && r.1.files[f.cachePath] == cache.files[f.tmpPath]
    ensures r.0 == 0 && IsFile(cache, f.tmpPath) && f.tmpPath != f.cachePath ==> !Exists(r.1, f.tmpPath)
    ensures (fsyncOk && closeOk && IsFile(cache, f.tmpPath) && !IsRoot(f.cachePath) && !IsDir(cache, f.cachePath) &&
             f.cachePath != "" && IsDir(cache, Dirname(f.cachePath))) ==> r.0 == 0
  {
    if !fsyncOk || !closeOk then (-1, cache)
    else
      var (e, cache') := FileSystem.Rename(cache, f.tmpPath, f.cachePath);
      if e != 0 then (-1, cache) else (0, cache')
  }
}
