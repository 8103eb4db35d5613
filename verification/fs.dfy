/** An abstract POSIX-like file system: regular files with contents and a
    modification time, and a set of directories, both keyed by the path string
    the caller spells. Each system call is a function from the state to an
    errno (0 for success) and the new state. The client's local cache disk and
    the server's disk are both values of this type. */
module FileSystem {
  import opened Common
  import opened Paths

  datatype File = File(data: seq<byte>, mtime: int)

  datatype Fs = Fs(files: map<string, File>, dirs: set<string>)

  predicate IsDir(fs: Fs, p: string) {
    IsRoot(p) || p in fs.dirs
  }

  predicate IsFile(fs: Fs, p: string) {
    !IsDir(fs, p) && p in fs.files
  }

  predicate Exists(fs: Fs, p: string) {
    IsDir(fs, p) || IsFile(fs, p)
  }

  /** Every entry other than a root lies in a directory that exists, as on
      any real disk: its `dirname` is a directory. */
  predicate WellFormed(fs: Fs) {
    (forall k :: k in fs.files && !IsRoot(k) ==> k != "" && IsDir(fs, Dirname(k))) &&
    (forall k :: k in fs.dirs && !IsRoot(k) ==> k != "" && IsDir(fs, Dirname(k)))
  }

  /** On a well-formed disk every `dirname` ancestor of an existing path
      exists too. */
  lemma {:induction false} AncestorsExist(fs: Fs, p: string, a: string)
    requires WellFormed(fs) && Exists(fs, p) && AncestorOrSelf(a, p)
    ensures Exists(fs, a)
    decreases Rank(p)
  {
    if a != p {
      DirnameRank(p);
      AncestorsExist(fs, Dirname(p), a);
    }
  }

  /** errno of a lookup of a path that does not exist: ENOTDIR when the walk
      up the `dirname` chain meets a regular file first, ENOENT otherwise. */
  function MissingErr(fs: Fs, p: string): (e: int)
    requires !Exists(fs, p)
    ensures e == ENOENT || e == ENOTDIR
    decreases Rank(p)
  {
    if p == "" then ENOENT
    else
      var parent := Dirname(p);
      if IsFile(fs, parent) then ENOTDIR
      else if IsDir(fs, parent) then ENOENT
      else (DirnameRank(p); MissingErr(fs, parent))
  }

  /** `stat(2)`: 0 when the path exists. */
  function StatErr(fs: Fs, p: string): (e: int)
    ensures e == 0 <==> Exists(fs, p)
    ensures e != 0 ==> e == ENOENT || e == ENOTDIR
  {
    if Exists(fs, p) then 0 else MissingErr(fs, p)
  }

  /** errno of resolving the directory a new entry `p` would go into. */
  function ParentErr(fs: Fs, p: string): (e: int)
    ensures e == 0 <==> p != "" && IsDir(fs, Dirname(p))
    ensures e != 0 ==> e == ENOENT || e == ENOTDIR
  {
    if p == "" then ENOENT
    else
      var parent := Dirname(p);
      if IsDir(fs, parent) then 0
      else if IsFile(fs, parent) then ENOTDIR
      else MissingErr(fs, parent)
  }

  /** Size as `stat` reports it; directories report 0 here. */
  function SizeOf(fs: Fs, p: string): int {
    if IsFile(fs, p) then |fs.files[p].data| else 0
  }

  /** Modification time as `stat` reports it; directories carry none here
      and report 0. */
  function MtimeOf(fs: Fs, p: string): int {
    if IsFile(fs, p) then fs.files[p].mtime else 0
  }

  /** Every path the file system holds an entry for. */
  function Entries(fs: Fs): set<string> {
    fs.files.Keys + fs.dirs
  }

  /** The entries whose parent directory is `d`. */
  function Children(fs: Fs, d: string): set<string> {
    set k | k in Entries(fs) && k != d && !IsRoot(k) && Dirname(k) == d
  }

  /** `mkdir(2)`. */
  function Mkdir(fs: Fs, p: string): (res: (int, Fs))
    ensures res.0 == 0 <==> !Exists(fs, p) && p != "" && IsDir(fs, Dirname(p))
    ensures res.0 == 0 ==> IsDir(res.1, p) && res.1.files == fs.files && res.1.dirs == fs.dirs + {p}
    ensures res.0 != 0 ==> res.1 == fs
    ensures res.0 == EEXIST <==> Exists(fs, p)
    ensures res.0 == ENOENT ==> !Exists(fs, p) && (p == "" || !IsDir(fs, Dirname(p)))
    ensures WellFormed(fs) ==> WellFormed(res.1)
  {
    if Exists(fs, p) then (EEXIST, fs)
    else
      var pe := ParentErr(fs, p);
      if pe != 0 then (pe, fs) else (0, fs.(dirs := fs.dirs + {p}))
  }

  /** The state with every trace of `p` removed. */
  function Without(fs: Fs, p: string): Fs {
    Fs(fs.files - {p}, fs.dirs - {p})
  }

  /** Go's `os.Remove`: unlinks a regular file or removes an empty directory. */
  function Remove(fs: Fs, p: string): (res: (int, Fs))
    ensures res.0 == 0 <==> IsFile(fs, p) || (IsDir(fs, p) && !IsRoot(p) && Children(fs, p) == {})
    ensures res.0 == 0 ==> !Exists(res.1, p)
    ensures res.0 == 0 ==> forall k :: k != p ==> (k in res.1.files <==> k in fs.files) && (k in res.1.dirs <==> k in fs.dirs)
    ensures res.0 == 0 ==> forall k :: k != p && k in fs.files ==> res.1.files[k] == fs.files[k]
    ensures res.0 != 0 ==> res.1 == fs
  {
    if !Exists(fs, p) then (MissingErr(fs, p), fs)
    else if IsRoot(p) then (EBUSY, fs)
    else if IsFile(fs, p) then (0, Without(fs, p))
    else if Children(fs, p) != {} then (ENOTEMPTY, fs)
    else (0, Without(fs, p))
  }

  /** Two paths a third one lies at or below are nested in one another. */
  lemma CommonDescendant(k: string, a: string, b: string)
    requires AtOrUnder(k, a) && AtOrUnder(k, b)
    ensures a == b || Under(a, b) || Under(b, a)
  {
    if |a| < |b| {
      assert b[..|a|] == k[..|a|];
    } else if |a| > |b| {
      assert a[..|b|] == k[..|b|];
    } else {
      assert a == k[..|a|];
    }
  }

  /** Two distinct directories neither inside the other have disjoint subtrees. */
  lemma SubtreesDisjoint(k: string, a: string, b: string)
    requires a != b && !Under(a, b) && !Under(b, a)
    requires AtOrUnder(k, a)
    ensures !AtOrUnder(k, b)
  {
    if AtOrUnder(k, b) {
      CommonDescendant(k, a, b);
      assert false;
    }
  }

  /** The state after directory `a` and everything below it move to `b`;
      entries already at or below `b` are replaced. */
  function MoveDir(fs: Fs, a: string, b: string): (fs': Fs)
    requires a != b && !Under(a, b) && !Under(b, a)
    ensures forall k :: k in fs.files && AtOrUnder(k, a) ==>
      Relocate(k, a, b) in fs'.files && fs'.files[Relocate(k, a, b)] == fs.files[k]
    ensures forall k :: k in fs.dirs && AtOrUnder(k, a) ==> Relocate(k, a, b) in fs'.dirs
    ensures forall k :: k in fs.files && !AtOrUnder(k, a) && !AtOrUnder(k, b) ==>
      k in fs'.files && fs'.files[k] == fs.files[k]
    ensures forall k :: k in fs.dirs && !AtOrUnder(k, a) && !AtOrUnder(k, b) ==> k in fs'.dirs
    ensures forall k :: AtOrUnder(k, a) ==> k !in fs'.files && k !in fs'.dirs
  {
    forall k1, k2 | k1 in fs.files && !AtOrUnder(k1, b) && k2 in fs.files && !AtOrUnder(k2, b)
                    && Relocate(k1, a, b) == Relocate(k2, a, b)
      ensures k1 == k2
    {
      RelocateInjective(k1, k2, a, b);
    }
    forall k | AtOrUnder(k, a) ensures !AtOrUnder(k, b) {
      SubtreesDisjoint(k, a, b);
    }
    forall k | AtOrUnder(k, b) ensures !AtOrUnder(k, a) {
      SubtreesDisjoint(k, b, a);
    }
    var files' := map k | k in fs.files && !AtOrUnder(k, b) :: Relocate(k, a, b) := fs.files[k];
    var dirs' := set k | k in fs.dirs && !AtOrUnder(k, b) :: Relocate(k, a, b);
    Fs(files', dirs')
  }

  /** `rename(2)`: a regular file replaces any regular file at `b`; a
      directory moves with its subtree onto a missing path or an empty
      directory. */
  function Rename(fs: Fs, a: string, b: string): (res: (int, Fs))
    ensures res.0 != 0 ==> res.1 == fs
    ensures res.0 == 0 ==> Exists(fs, a)
    ensures res.0 == 0 && IsFile(fs, a) ==> IsFile(res.1, b) && res.1.files[b] == fs.files[a]
    ensures res.0 == 0 && IsFile(fs, a) && a != b ==> !Exists(res.1, a) && res.1.dirs == fs.dirs
    ensures res.0 == 0 && IsFile(fs, a) ==>
      forall k :: k != a && k != b ==>
        (k in res.1.files <==> k in fs.files) && (k in fs.files ==> res.1.files[k] == fs.files[k])
    ensures IsFile(fs, a) && !IsRoot(b) && !IsDir(fs, b) && b != "" && IsDir(fs, Dirname(b)) ==> res.0 == 0
    ensures IsFile(fs, a) && IsDir(fs, b) ==> res.0 != 0
    ensures !Exists(fs, a) ==> res.0 != 0
  {
    if !Exists(fs, a) then (MissingErr(fs, a), fs)
    else if IsRoot(a) || IsRoot(b) then (EBUSY, fs)
    else if a == b then (0, fs)
    else
      var pe := ParentErr(fs, b);
      if pe != 0 then (pe, fs)
      else if IsFile(fs, a) then
        if IsDir(fs, b) then (EISDIR, fs)
        else (0, fs.(files := (fs.files - {a})[b := fs.files[a]]))
      else if IsFile(fs, b) then (ENOTDIR, fs)
      else if IsDir(fs, b) && Children(fs, b) != {} then (ENOTEMPTY, fs)
      else if Under(b, a) || Under(a, b) then (EINVAL, fs)
      else (0, MoveDir(fs, a, b))
  }

  /** `rename(2)` of a directory: it succeeds when the target is missing or
      an empty directory inside an existing directory and neither path is
      inside the other; on success the directory and its whole subtree sit
      under the new path and the old path is gone. */
  lemma RenameMovesDir(fs: Fs, a: string, b: string)
    ensures IsDir(fs, a) && !IsRoot(a) && !IsRoot(b) && a != b && b != "" && IsDir(fs, Dirname(b)) &&
            (!Exists(fs, b) || (IsDir(fs, b) && Children(fs, b) == {})) && !Under(b, a) && !Under(a, b) ==>
      Rename(fs, a, b).0 == 0
    ensures var (e, fs') := Rename(fs, a, b);
      e == 0 && IsDir(fs, a) && a != b ==>
        IsDir(fs', b) && !Exists(fs', a) &&
        (forall k :: k in fs.files && AtOrUnder(k, a) ==>
           Relocate(k, a, b) in fs'.files && fs'.files[Relocate(k, a, b)] == fs.files[k]) &&
        (forall k :: k in fs.dirs && AtOrUnder(k, a) ==> Relocate(k, a, b) in fs'.dirs)
  {
    if Rename(fs, a, b).0 == 0 && IsDir(fs, a) && a != b {
      assert Relocate(a, a, b) == b;
    }
  }

  /** `open(2)` with `O_CREAT | O_EXCL`: a new empty file, or EEXIST. */
  function CreateExcl(fs: Fs, p: string, now: int): (res: (int, Fs))
    ensures res.0 == 0 <==> !Exists(fs, p) && p != "" && IsDir(fs, Dirname(p))
    ensures res.0 == 0 ==> res.1 == fs.(files := fs.files[p := File([], now)])
    ensures res.0 != 0 ==> res.1 == fs
    ensures Exists(fs, p) ==> res.0 == EEXIST
  {
    if Exists(fs, p) then (EEXIST, fs)
    else
      var pe := ParentErr(fs, p);
      if pe != 0 then (pe, fs) else (0, fs.(files := fs.files[p := File([], now)]))
  }

  /** `fopen(p, "w")` / `fopen(p, "w+")`: creates the file or truncates it. */
  function CreateTrunc(fs: Fs, p: string, now: int): (res: (int, Fs))
    ensures res.0 == 0 <==> IsFile(fs, p) || (!Exists(fs, p) && p != "" && IsDir(fs, Dirname(p)))
    ensures res.0 == 0 ==> res.1 == fs.(files := fs.files[p := File([], now)])
    ensures res.0 != 0 ==> res.1 == fs
    ensures IsDir(fs, p) ==> res.0 == EISDIR
    ensures WellFormed(fs) ==> WellFormed(res.1)
  {
    if IsDir(fs, p) then (EISDIR, fs)
    else if IsFile(fs, p) then (0, fs.(files := fs.files[p := File([], now)]))
    else
      var pe := ParentErr(fs, p);
      if pe != 0 then (pe, fs) else (0, fs.(files := fs.files[p := File([], now)]))
  }

  /** The state with regular file `p` holding `data`, modified at `now`. */
  function SetFile(fs: Fs, p: string, data: seq<byte>, now: int): (fs': Fs)
    requires IsFile(fs, p)
    ensures IsFile(fs', p) && fs'.files[p] == File(data, now)
    ensures fs'.dirs == fs.dirs && fs'.files.Keys == fs.files.Keys
    ensures WellFormed(fs) ==> WellFormed(fs')
  {
    fs.(files := fs.files[p := File(data, now)])
  }
}
