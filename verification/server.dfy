/** The server's handlers over its disk, an abstract file system value. Each
    handler maps the virtual path it receives under the server's cache root
    and performs one or a few file system calls. */
module Server {
  import opened Common
  import opened Paths
  import opened GoPath
  import opened FileSystem
  import opened Proto

  /** The directory `Put` stages its temporary files in, relative to the
      server's working directory. */
  const TempDir := "tmp"

  /** `adjustPath`: the server path of a virtual path, `path.Join(cachePath, p)`.
      The result is empty only when both parts are; that it stays under the
      root is `AdjustPathUnderRoot`. */
  function AdjustPath(root: string, p: string): (r: string)
    ensures r == "" <==> root == "" && p == ""
  {
    Join(root, p)
  }

  /** For a normalised cache root and a virtual path from the bridge, the
      server path is the root followed by the virtual path ("/" maps to the
      root itself), so every such path stays under the root and distinct
      virtual paths stay distinct. */
  lemma AdjustPathUnderRoot(rooted: bool, rs: seq<string>, vs: seq<string>)
    requires |rs| > 0 && AllNames(rs) && AllNames(vs)
    ensures var root := RootPath(rooted, rs);
            var full := AdjustPath(root, VirtualPath(vs));
            |full| >= |root| && full[..|root|] == root &&
            (vs != [] ==> full[|root|..] == VirtualPath(vs))
  {
    JoinCanonical(rooted, rs, vs);
  }

  /** `Stat`: the entry's metadata when it exists; when only its parent
      exists, a `FileInfo` with just `direxists` set and no error; otherwise
      the zero `FileInfo` and the lookup error of the parent. */
  function Stat(ns: Fs, root: string, p: string): (r: Reply<FileInfo>)
    ensures var full := AdjustPath(root, p);
            Exists(ns, full) ==>
              r.err.None? && !r.value.dirExists && r.value.isDir == IsDir(ns, full) &&
              r.value.name == BaseName(full) && r.value.size == SizeOf(ns, full) &&
              r.value.modtime == Seconds(MtimeOf(ns, full))
    ensures var full := AdjustPath(root, p);
            !Exists(ns, full) && Exists(ns, Dir(full)) ==> r == Reply(FileInfo("", 0, 0, false, true), None)
    ensures var full := AdjustPath(root, p);
            !Exists(ns, full) && !Exists(ns, Dir(full)) ==> r.value == EmptyInfo && r.err.Some?
  {
    var full := AdjustPath(root, p);
    if Exists(ns, full) then
      Reply(FileInfo(BaseName(full), SizeOf(ns, full), Seconds(MtimeOf(ns, full)), IsDir(ns, full), false), None)
    else
      var parent := Dir(full);
      if Exists(ns, parent) then Reply(FileInfo("", 0, 0, false, true), None)
      else Reply(EmptyInfo, Some(PathError("stat", parent, MissingErr(ns, parent))))
  }

  /** `Get`: the whole contents of a regular file, or no bytes and an error. */
  function Get(ns: Fs, root: string, p: string): (r: Reply<seq<byte>>)
    ensures r.err.None? <==> IsFile(ns, AdjustPath(root, p))
    ensures r.err.None? ==> r.value == ns.files[AdjustPath(root, p)].data
    ensures r.err.Some? ==> r.value == []
  {
    var full := AdjustPath(root, p);
    if IsFile(ns, full) then Reply(ns.files[full].data, None)
    else if IsDir(ns, full) then Reply([], Some(PathError("read", full, EISDIR)))
    else Reply([], Some(PathError("open", full, MissingErr(ns, full))))
  }

  /** A `Stat` that reports a regular file and a `Get` of the same path agree
      on the size; a `Stat` that reports a missing path or a directory goes
      with a failing `Get`. */
  lemma StatAgreesWithGet(ns: Fs, root: string, p: string)
    ensures var s := Stat(ns, root, p);
            var g := Get(ns, root, p);
            (s.err.None? && !s.value.dirExists && !s.value.isDir <==> g.err.None?) &&
            (g.err.None? ==> s.value.size == |g.value|)
  {
  }

  /** `MkDir`: success exactly when `mkdir` of the server path succeeds; the
      error names the virtual path. */
  function MkDir(ns: Fs, root: string, p: string): (res: (Reply<bool>, Fs))
    ensures var (e, ns') := Mkdir(ns, AdjustPath(root, p));
            res.1 == ns' && (res.0.value <==> e == 0) && (res.0.err.None? <==> e == 0) &&
            (e != 0 ==> res.0.err == Some(PathError("mkdir", p, e)))
  {
    var (e, ns') := Mkdir(ns, AdjustPath(root, p));
    if e != 0 then (Reply(false, Some(PathError("mkdir", p, e))), ns)
    else (Reply(true, None), ns')
  }

  /** The body `RmDir` and `Unlink` share: `os.Remove` of the server path,
      which removes a regular file or an empty directory alike. */
  function RemovePath(ns: Fs, root: string, p: string): (res: (Reply<bool>, Fs))
    ensures var (e, ns') := Remove(ns, AdjustPath(root, p));
            res.1 == ns' && (res.0.value <==> e == 0) && (res.0.err.None? <==> e == 0) &&
            (e != 0 ==> res.0.err == Some(PathError("remove", p, e)))
  {
    var (e, ns') := Remove(ns, AdjustPath(root, p));
    if e != 0 then (Reply(false, Some(PathError("remove", p, e))), ns)
    else (Reply(true, None), ns')
  }

  /** `RmDir`. */
  function RmDir(ns: Fs, root: string, p: string): (res: (Reply<bool>, Fs))
    ensures res.0.value <==> Remove(ns, AdjustPath(root, p)).0 == 0
    ensures res.0.value ==> !Exists(res.1, AdjustPath(root, p))
    ensures !res.0.value ==>
      res.1 == ns && res.0.err == Some(PathError("remove", p, Remove(ns, AdjustPath(root, p)).0))
  {
    RemovePath(ns, root, p)
  }

  /** `Unlink`. */
  function Unlink(ns: Fs, root: string, p: string): (res: (Reply<bool>, Fs))
    ensures res.0.value <==> Remove(ns, AdjustPath(root, p)).0 == 0
    ensures res.0.value ==> !Exists(res.1, AdjustPath(root, p))
    ensures !res.0.value ==>
      res.1 == ns && res.0.err == Some(PathError("remove", p, Remove(ns, AdjustPath(root, p)).0))
  {
    RemovePath(ns, root, p)
  }

  /** `Rename`: success exactly when `rename` of the two server paths
      succeeds; the error names both virtual paths. */
  function Rename(ns: Fs, root: string, oldPath: string, newPath: string): (res: (Reply<bool>, Fs))
    ensures var (e, ns') := FileSystem.Rename(ns, AdjustPath(root, oldPath), AdjustPath(root, newPath));
            res.1 == ns' && (res.0.value <==> e == 0) && (res.0.err.None? <==> e == 0) &&
            (e != 0 ==> res.0.err == Some(LinkError("rename", oldPath, newPath, e)))
    ensures var (a, b) := (AdjustPath(root, oldPath), AdjustPath(root, newPath));
            res.0.value && IsDir(ns, a) && a != b ==> IsDir(res.1, b) && !Exists(res.1, a)
  {
    RenameMovesDir(ns, AdjustPath(root, oldPath), AdjustPath(root, newPath));
    var (e, ns') := FileSystem.Rename(ns, AdjustPath(root, oldPath), AdjustPath(root, newPath));
    if e != 0 then (Reply(false, Some(LinkError("rename", oldPath, newPath, e))), ns)
    else (Reply(true, None), ns')
  }

  /** The set of elements of a sequence. */
  function Elements<T>(s: seq<T>): set<T> {
    set x | x in s
  }

  /** The names of the given entries. */
  function NamesOf(ks: set<string>): set<string> {
    set k | k in ks :: BaseName(k)
  }

  lemma NamesStep(names: seq<string>, seen: set<string>, k: string)
    requires k !in seen && |names| == |seen|
    ensures Elements(names + [BaseName(k)]) == Elements(names) + {BaseName(k)}
    ensures NamesOf(seen + {k}) == NamesOf(seen) + {BaseName(k)}
    ensures |seen + {k}| == |names + [BaseName(k)]|
  {
  }

  /** `ReadDir`: the names of the directory's entries, one per entry, in the
      order the file system enumerates them (which this model leaves open);
      no names and an error when the path is missing or not a directory. */
  method ReadDir(ns: Fs, root: string, p: string) returns (r: Reply<seq<string>>)
    ensures r.err.None? <==> IsDir(ns, AdjustPath(root, p))
    ensures r.err.Some? ==> r.value == []
    ensures r.err.None? ==> |r.value| == |Children(ns, AdjustPath(root, p))|
    ensures r.err.None? ==> Elements(r.value) == NamesOf(Children(ns, AdjustPath(root, p)))
  {
    var full := AdjustPath(root, p);
    if !Exists(ns, full) {
      return Reply([], Some(PathError("open", full, MissingErr(ns, full))));
    }
    if !IsDir(ns, full) {
      return Reply([], Some(PathError("readdirent", full, ENOTDIR)));
    }
    // Readdirnames: one name per directory entry, in enumeration order.
    var kids := Children(ns, full);
    var rest := kids;
    var names: seq<string> := [];
    ghost var seen: set<string> := {};
    while rest != {}
      invariant rest + seen == kids && rest !! seen
      invariant |names| == |seen|
      invariant Elements(names) == NamesOf(seen)
      decreases |rest|
    {
      var k :| k in rest;
      NamesStep(names, seen, k);
      names := names + [BaseName(k)];
      rest := rest - {k};
      seen := seen + {k};
    }
    return Reply(names, None);
  }

  /** What the file system does to the temporary file: how many bytes `Write`
      accepted, and whether `Sync`, `Chmod` and `Close` succeeded. */
  datatype PutIo = PutIo(written: nat, syncOk: bool, chmodOk: bool, closeOk: bool)

  /** Renaming a freshly staged file onto another path: the target holds the
      staged record and nothing else changes. */
  lemma RenameStagedFile(ns: Fs, tmp: string, full: string, f: File)
    requires !Exists(ns, tmp) && full != tmp
    requires FileSystem.Rename(ns.(files := ns.files[tmp := f]), tmp, full).0 == 0
    ensures var ns' := FileSystem.Rename(ns.(files := ns.files[tmp := f]), tmp, full).1;
            ns'.files == ns.files[full := f] && ns'.dirs == ns.dirs
  {
    var staged := ns.(files := ns.files[tmp := f]);
    assert IsFile(staged, tmp);
    assert (staged.files - {tmp})[full := f] == ns.files[full := f];
  }

  /** `Put`: write the contents to a fresh temporary file, sync, chmod and
      close it, then rename it onto the server path. Any failing step returns
      `Success{false}` and leaves the target as it was (the temporary file
      stays behind). `tempName` is the name `ioutil.TempFile` picked, which is
      always a path inside `tmp` that did not exist. */
  method Put(ns: Fs, root: string, p: string, contents: seq<byte>, tempName: string, io: PutIo, now: int)
    returns (r: Reply<bool>, ns': Fs)
    requires Dirname(tempName) == TempDir && !Exists(ns, tempName)
    ensures r.value <==> r.err.None?
    ensures r.value ==> io.written >= |contents| && io.syncOk && io.chmodOk && io.closeOk
    ensures r.value ==> Get(ns', root, p) == Reply(contents, None)
    ensures r.value ==> IsFile(ns', AdjustPath(root, p)) && ns'.files[AdjustPath(root, p)] == File(contents, now)
    ensures var full := AdjustPath(root, p);
            r.value && full != tempName ==> ns'.files == ns.files[full := File(contents, now)] && ns'.dirs == ns.dirs
    ensures var full := AdjustPath(root, p);
            !r.value ==>
              (ns'.dirs == ns.dirs &&
               forall k :: k != tempName ==>
                 (k in ns'.files <==> k in ns.files) && (k in ns.files ==> ns'.files[k] == ns.files[k]))
    ensures var full := AdjustPath(root, p);
            (io.written >= |contents| && io.syncOk && io.chmodOk && io.closeOk &&
             IsDir(ns, TempDir) && full != tempName && !IsRoot(full) && !IsDir(ns, full) &&
             full != "" && IsDir(ns, Dirname(full))) ==> r.value
  {
    // ioutil.TempFile
    var (e, ns1) := CreateExcl(ns, tempName, now);
    if e != 0 {
      return Reply(false, Some(PathError("open", tempName, e))), ns;
    }
    // tempFile.Write
    var k := if io.written < |contents| then io.written else |contents|;
    var ns2 := SetFile(ns1, tempName, contents[..k], now);
    assert ns2 == ns.(files := ns.files[tempName := File(contents[..k], now)]);
    if k < |contents| {
      return Reply(false, Some(IoError("write", tempName))), ns2;
    }
    assert contents[..k] == contents;
    if !io.syncOk {
      return Reply(false, Some(IoError("sync", tempName))), ns2;
    }
    if !io.chmodOk {
      return Reply(false, Some(IoError("chmod", tempName))), ns2;
    }
    if !io.closeOk {
      return Reply(false, Some(IoError("close", tempName))), ns2;
    }
    var full := AdjustPath(root, p);
    var (e2, ns3) := FileSystem.Rename(ns2, tempName, full);
    if e2 != 0 {
      return Reply(false, Some(LinkError("rename", tempName, full, e2))), ns2;
    }
    if full != tempName {
      RenameStagedFile(ns, tempName, full, File(contents, now));
    }
    return Reply(true, None), ns3;
  }
}
