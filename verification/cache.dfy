/** The client's local cache: where a virtual path lives on the local disk,
    how missing parent directories are created, the byte copy into a staging
    file, when a cached copy is fresh enough to serve, and the part of `open`
    that brings the cache entry up to date before a session starts. */
module Cache {
  import opened Common
  import opened Paths
  import opened FileSystem
  import opened Proto

  /** The cache directory, relative to the client's working directory. */
  const CacheRoot := "cache"

  /** `adjustPath`: the cache path of a virtual path. */
  function AdjustPath(p: string): (r: string)
    ensures |r| == |CacheRoot| + 1 + |p|
    ensures r[..|CacheRoot|] == CacheRoot && r[|CacheRoot|] == '/' && r[|CacheRoot| + 1..] == p
  {
    CacheRoot + "/" + p
  }

  /** Every cache path lies inside the cache directory, and distinct virtual
      paths have distinct cache paths. */
  lemma AdjustPathInjective(p: string, q: string)
    ensures Under(AdjustPath(p), CacheRoot)
    ensures AdjustPath(p) == AdjustPath(q) ==> p == q
  {
    if AdjustPath(p) == AdjustPath(q) {
      assert p == AdjustPath(p)[|CacheRoot| + 1..];
    }
  }

  /** The staleness rule: a cached entry is served when the server's
      modification time (whole seconds) is not after the cached file's
      modification time truncated to whole seconds; ties keep the cache. */
  predicate ServeFromCache(remoteModtime: int, localMtime: int): (b: bool)
    ensures b <==> remoteModtime * NanosPerSecond <= localMtime
  {
    remoteModtime <= Seconds(localMtime)
  }

  /** `mkdirp`: create `path` and, when `mkdir` reports ENOENT, its missing
      ancestors first. A path that already exists is left alone. The source
      falls off the end of the function on its success paths; those count as
      success (0) here. */
  function Mkdirp(fs: Fs, path: string): (res: (int, Fs))
    ensures Exists(fs, path) ==> res == (0, fs)
    ensures res.0 == 0 || res.0 == -1
    ensures res.0 == 0 ==> Exists(res.1, path)
    ensures res.0 == 0 && !Exists(fs, path) ==> IsDir(res.1, path) && IsDir(res.1, Dirname(path))
    ensures res.1.files == fs.files && fs.dirs <= res.1.dirs
    ensures forall d :: d in res.1.dirs && d !in fs.dirs ==> AncestorOrSelf(d, path)
    ensures WellFormed(fs) ==> WellFormed(res.1)
    decreases Rank(path)
  {
    if StatErr(fs, path) == 0 then (0, fs)
    else
      var (e, fs1) := Mkdir(fs, path);
      if e == 0 then (0, fs1)
      else if e == ENOENT then
        DirnameRank(path);
        var (r, fs2) := Mkdirp(fs, Dirname(path));
        if r == -1 then (-1, fs2)
        else
          var (e2, fs3) := Mkdir(fs2, path);
          if e2 != 0 then (-1, fs3) else (0, fs3)
      else (-1, fs)
  }

  /** On a well-formed cache disk, a successful `mkdirp` leaves the path and
      every one of its `dirname` ancestors in place. */
  lemma MkdirpMakesAncestors(fs: Fs, path: string)
    requires WellFormed(fs) && Mkdirp(fs, path).0 == 0
    ensures forall a :: AncestorOrSelf(a, path) ==> Exists(Mkdirp(fs, path).1, a)
  {
    forall a | AncestorOrSelf(a, path) ensures Exists(Mkdirp(fs, path).1, a) {
      AncestorsExist(Mkdirp(fs, path).1, path, a);
    }
  }

  /** Making the same directories twice: the second call succeeds and
      changes nothing. */
  lemma MkdirpIdempotent(fs: Fs, path: string)
    requires Mkdirp(fs, path).0 == 0
    ensures Mkdirp(Mkdirp(fs, path).1, path) == (0, Mkdirp(fs, path).1)
  {
  }

  /** `createFullPath`: create the parent directories of `path`, then create
      or truncate `path` itself. The result of `fopen` is not checked (a
      failed `fopen` leaves the disk as it was), and success is reported
      whenever the directories could be made. */
  function CreateFullPath(fs: Fs, path: string, now: int): (res: (int, Fs))
    ensures res.0 == 0 || res.0 == -1
    ensures res.0 == 0 ==> Exists(res.1, Dirname(path))
    ensures res.0 == 0 && path != "" && IsDir(res.1, Dirname(path)) && !IsDir(fs, path) ==>
      IsFile(res.1, path) && res.1.files[path] == File([], now)
    ensures fs.dirs <= res.1.dirs
    ensures forall d :: d in res.1.dirs && d !in fs.dirs ==> AncestorOrSelf(d, Dirname(path))
    ensures WellFormed(fs) ==> WellFormed(res.1)
    ensures forall k :: k != path ==>
      (k in res.1.files <==> k in fs.files) && (k in fs.files ==> res.1.files[k] == fs.files[k])
  {
    var (r, fs1) := Mkdirp(fs, Dirname(path));
    if r == -1 then (-1, fs1)
    else
      assert path != "" && !IsDir(fs, path) ==> !IsDir(fs1, path) by {
        if path != "" && !IsDir(fs, path) && path in fs1.dirs {
          DirnameRank(path);
          AncestorRank(path, Dirname(path));
        }
      }
      (0, CreateTrunc(fs1, path, now).1)
  }

  /** What one `write` call on the destination does: accept up to `n` bytes,
      be interrupted by a signal (EINTR, retried), or fail. */
  datatype WriteReply = Wrote(n: nat) | Interrupted | WriteFailed

  /** The size of `cp`'s buffer: each `read` returns at most this many bytes. */
  const BufSize := 4096

  /** Every reply accepts a whole buffer. */
  predicate WholeWrites(writes: seq<WriteReply>) {
    forall i :: 0 <= i < |writes| ==> writes[i].Wrote? && writes[i].n >= BufSize
  }

  /** The copy loop of `cp`: read the source a buffer at a time and write
      each buffer out, retrying short and interrupted writes, until the
      source is exhausted. `writes` are the replies of the successive
      `write` calls; a copy that needs more replies than there are fails.
      `dest` is what the destination holds afterwards. */
  method CopyBytes(src: seq<byte>, writes: seq<WriteReply>) returns (ok: bool, dest: seq<byte>)
    ensures dest <= src
    ensures ok ==> dest == src
    ensures WholeWrites(writes) && |src| <= |writes| * BufSize ==> ok
    ensures (forall i :: 0 <= i < |writes| ==> writes[i] == WriteFailed) && src != [] ==> !ok && dest == []
  {
    dest := [];
    var w := 0;
    while |dest| < |src|
      invariant |dest| <= |src| && dest == src[..|dest|] && w <= |writes|
      invariant WholeWrites(writes) && |src| <= |writes| * BufSize ==> |dest| == w * BufSize || |dest| == |src|
      invariant (forall i :: 0 <= i < |writes| ==> writes[i] == WriteFailed) ==> dest == [] && w == 0
      decreases |src| - |dest|
    {
      // read: the next buffer of the source
      var n := if |src| - |dest| < BufSize then |src| - |dest| else BufSize;
      var start := |dest|;
      var pending := n;
      while pending > 0
        invariant 0 <= pending <= n && |dest| == start + n - pending
        invariant dest == src[..|dest|] && w <= |writes|
        invariant WholeWrites(writes) && |src| <= |writes| * BufSize ==>
          (pending == n && start == w * BufSize) || (pending == 0 && (|dest| == w * BufSize || |dest| == |src|))
        invariant (forall i :: 0 <= i < |writes| ==> writes[i] == WriteFailed) ==> dest == [] && w == 0
        decreases |writes| - w
      {
        if w == |writes| {
          return false, dest;
        }
        var reply := writes[w];
        w := w + 1;
        match reply
        case Wrote(k) =>
          var m := if k < pending then k else pending;
          assert src[..|dest|] + src[|dest|..|dest| + m] == src[..|dest| + m];
          dest := dest + src[|dest|..|dest| + m];
          pending := pending - m;
        case Interrupted =>
        case WriteFailed =>
          return false, dest;
      }
    }
    ok := true;
  }

  /** `cp`: copy regular file `from` to a new file `to` (created with
      `O_EXCL`), closing the destination at the end. -1 when `from` cannot
      be opened, `to` cannot be created, reading fails (the source is a
      directory), a write fails or the close fails; a failure after `to` was
      created leaves the partial copy behind. */
  method Cp(fs: Fs, from: string, to: string, writes: seq<WriteReply>, closeOk: bool, now: int)
    returns (r: int, fs': Fs)
    ensures r == 0 || r == -1
    ensures !Exists(fs, from) || Exists(fs, to) ==> r == -1 && fs' == fs
    ensures r == 0 ==> IsFile(fs, from) && IsFile(fs', to) && fs'.files[to] == File(fs.files[from].data, now)
    ensures (IsFile(fs, from) && !Exists(fs, to) && to != "" && IsDir(fs, Dirname(to)) &&
             WholeWrites(writes) && |fs.files[from].data| <= |writes| * BufSize && closeOk) ==> r == 0
    ensures fs'.dirs == fs.dirs
    ensures forall k :: k != to ==>
      (k in fs'.files <==> k in fs.files) && (k in fs.files ==> fs'.files[k] == fs.files[k])
    ensures fs' != fs ==> IsFile(fs', to) && fs'.files[to].data <= (if IsFile(fs, from) then fs.files[from].data else [])
  {
    if !Exists(fs, from) {
      return -1, fs;
    }
    var (e, fs1) := CreateExcl(fs, to, now);
    if e != 0 {
      return -1, fs;
    }
    if IsDir(fs, from) {
      return -1, fs1;
    }
    var ok, dest := CopyBytes(fs.files[from].data, writes);
    fs' := SetFile(fs1, to, dest, now);
    if !ok || !closeOk {
      return -1, fs';
    }
    r := 0;
  }

  /** The outcome of the part of `open` before the session starts: an errno
      (0 to go on to the session), the cache afterwards, and whether a `Get`
      was issued. */
  datatype Prep = Prep(err: int, cache: Fs, getIssued: bool)

  /** Overwrite the cache entry with fetched contents, as `fopen(p, "w")` and
      `fwrite` of `strlen` bytes do: only the bytes before the first zero
      byte are written. A failed `fopen` leaves the cache as it was. */
  function StoreFetched(cache: Fs, abs: string, contents: seq<byte>, now: int): (c: Fs)
    ensures CreateTrunc(cache, abs, now).0 == 0 ==>
      IsFile(c, abs) && c.files[abs] == File(CString(contents), now)
    ensures CreateTrunc(cache, abs, now).0 != 0 ==> c == cache
    ensures c.dirs == cache.dirs
    ensures WellFormed(cache) ==> WellFormed(c)
    ensures forall k :: k != abs ==> (k in c.files <==> k in cache.files) && (k in cache.files ==> c.files[k] == cache.files[k])
  {
    var (e, c1) := CreateTrunc(cache, abs, now);
    if e != 0 then cache else SetFile(c1, abs, CString(contents), now)
  }

  /** The server read of `open`: a failed `Get` is -ENOENT (the cache keeps
      whatever was there, including an empty file `createFullPath` made). */
  function Fetch(cache: Fs, abs: string, get: Option<seq<byte>>, now: int): (r: Prep)
    ensures r.getIssued
    ensures get.None? ==> r == Prep(-ENOENT, cache, true)
    ensures get.Some? ==> r.err == 0 && r.cache == StoreFetched(cache, abs, get.value, now)
  {
    if get.None? then Prep(-ENOENT, cache, true)
    else Prep(0, StoreFetched(cache, abs, get.value, now), true)
  }

  /** `open` up to the start of the session. `stat` and `get` are the
      client's view of the `Stat` and `Get` calls (`None` when the call
      failed); `get` is only consulted when a `Get` is issued. */
  function Prepare(cache: Fs, path: string, stat: Option<FileInfo>, get: Option<seq<byte>>, now: int): (r: Prep)
    ensures stat.None? ==> r == Prep(-ENOENT, cache, false)
    ensures r.err == 0 || r.err == -ENOENT || r.err == -EACCES
    // the parent exists on the server but the path does not: an empty cache file, no Get
    ensures stat.Some? && stat.value.dirExists ==>
      !r.getIssued && r.err == 0 && r.cache == CreateTrunc(cache, AdjustPath(path), now).1
    // a cached entry: fetched exactly when it is stale
    ensures stat.Some? && !stat.value.dirExists && Exists(cache, AdjustPath(path)) ==>
      (r.getIssued <==> !ServeFromCache(stat.value.modtime, MtimeOf(cache, AdjustPath(path))))
    ensures stat.Some? && !stat.value.dirExists && Exists(cache, AdjustPath(path)) &&
            ServeFromCache(stat.value.modtime, MtimeOf(cache, AdjustPath(path))) ==>
      r == Prep(0, cache, false)
    // no cached entry: parent directories are created, then the contents fetched
    ensures stat.Some? && !stat.value.dirExists && StatErr(cache, AdjustPath(path)) == ENOENT ==>
      (r.getIssued <==> Mkdirp(cache, Dirname(AdjustPath(path))).0 == 0) &&
      (!r.getIssued ==> r.err == -EACCES)
    ensures stat.Some? && !stat.value.dirExists && StatErr(cache, AdjustPath(path)) == ENOTDIR ==>
      r == Prep(-EACCES, cache, false)
    ensures r.getIssued ==> (r.err == 0 <==> get.Some?) && (get.None? ==> r.err == -ENOENT)
    // a failed fetch keeps what was there, or the empty file `createFullPath` made
    ensures stat.Some? && !stat.value.dirExists && r.getIssued && get.None? ==>
      r.cache == if StatErr(cache, AdjustPath(path)) == 0 then cache else CreateFullPath(cache, AdjustPath(path), now).1
    // a successful fetch leaves the contents up to the first zero byte in the cache
    ensures r.getIssued && get.Some? && !IsDir(cache, AdjustPath(path)) ==>
      IsFile(r.cache, AdjustPath(path)) && r.cache.files[AdjustPath(path)] == File(CString(get.value), now)
    // nothing else changes: other files stay, new directories are ancestors of the entry
    ensures forall k :: k != AdjustPath(path) ==>
      (k in r.cache.files <==> k in cache.files) && (k in cache.files ==> r.cache.files[k] == cache.files[k])
    ensures cache.dirs <= r.cache.dirs
    ensures forall d :: d in r.cache.dirs && d !in cache.dirs ==> AncestorOrSelf(d, Dirname(AdjustPath(path)))
    ensures WellFormed(cache) ==> WellFormed(r.cache)
  {
    if stat.None? then Prep(-ENOENT, cache, false)
    else
      var abs := AdjustPath(path);
      if stat.value.dirExists then Prep(0, CreateTrunc(cache, abs, now).1, false)
      else
        var se := StatErr(cache, abs);
        if se != 0 then
          if se == ENOENT then
            var (c, cache1) := CreateFullPath(cache, abs, now);
            if c == -1 then Prep(-EACCES, cache1, false)
            else
              MissingParentNotFile(cache, abs, Mkdirp(cache, Dirname(abs)).1);
              Fetch(cache1, abs, get, now)
          else Prep(-EACCES, cache, false)
        else if ServeFromCache(stat.value.modtime, MtimeOf(cache, abs)) then Prep(0, cache, false)
        else Fetch(cache, abs, get, now)
  }

  /** When `stat` of a cache path fails with ENOENT, its parent is not a
      regular file, and once `createFullPath` succeeded it is a directory. */
  lemma MissingParentNotFile(cache: Fs, abs: string, cache1: Fs)
    requires StatErr(cache, abs) == ENOENT
    requires cache1.files == cache.files && cache.dirs <= cache1.dirs
    requires Exists(cache1, Dirname(abs))
    ensures IsDir(cache1, Dirname(abs))
  {
    assert abs != "" ==> !IsFile(cache, Dirname(abs));
  }
}
