/** Slash-separated paths as Go's `path` package treats them: `Clean`, `Join`,
    `Dir`, and the base name `os.FileInfo.Name` reports. */
module GoPath {
  import opened Paths

  /** The pieces of `s` between slashes, empty pieces included. */
  function Split(s: string): (r: seq<string>)
    ensures |r| >= 1
  {
    if s == [] then [""]
    else if s[0] == '/' then [""] + Split(s[1..])
    else var rest := Split(s[1..]); [[s[0]] + rest[0]] + rest[1..]
  }

  /** The pieces joined back with one slash between neighbours. */
  function JoinSep(xs: seq<string>): string {
    if |xs| == 0 then "" else if |xs| == 1 then xs[0] else xs[0] + "/" + JoinSep(xs[1..])
  }

  /** The lexical processing of `Clean` over the pieces: empty and "." pieces
      vanish, ".." removes the previous real piece, and at the start of a
      rooted path ".." vanishes, while a relative path keeps it. */
  function CleanSegs(segs: seq<string>, rooted: bool, acc: seq<string>): seq<string>
    decreases |segs|
  {
    if segs == [] then acc
    else
      var s := segs[0];
      if s == "" || s == "." then CleanSegs(segs[1..], rooted, acc)
      else if s == ".." then
        if |acc| > 0 && acc[|acc| - 1] != ".." then CleanSegs(segs[1..], rooted, acc[..|acc| - 1])
        else if rooted then CleanSegs(segs[1..], rooted, acc)
        else CleanSegs(segs[1..], rooted, acc + [".."])
      else CleanSegs(segs[1..], rooted, acc + [s])
  }

  /** Go `path.Clean`. */
  function Clean(p: string): (r: string)
    ensures r != ""
  {
    if p == "" then "."
    else
      var rooted := p[0] == '/';
      var body := JoinSep(CleanSegs(Split(p), rooted, []));
      if rooted then "/" + body else if body == "" then "." else body
  }

  /** Go `path.Join` of two elements: empty elements are skipped and the rest
      is joined with "/" and cleaned; two empty elements give "". */
  function Join(a: string, b: string): string {
    if a != "" then Clean(a + "/" + b) else if b != "" then Clean(b) else ""
  }

  /** Go `path.Dir`: everything up to the last slash, cleaned. */
  function Dir(p: string): string {
    match LastSlash(p)
    case None => Clean("")
    case Some(i) => Clean(p[..i + 1])
  }

  /** The base name `os.Stat` reports: trailing slashes dropped (a lone "/"
      stays), then everything after the last slash. */
  function BaseName(p: string): string {
    var t := StripTrailingSlashes(p);
    if t == "" then (if p == "" then "" else "/")
    else match LastSlash(t)
      case None => t
      case Some(i) => t[i + 1..]
  }

  /** One component of a normalised path: non-empty, not "." or "..", no slash. */
  predicate IsName(s: string) {
    s != "" && s != "." && s != ".." && '/' !in s
  }

  predicate AllNames(xs: seq<string>) {
    forall i :: 0 <= i < |xs| ==> IsName(xs[i])
  }

  /** The absolute path with the given components, "/" for none. The file
      system bridge hands the client paths of this shape. */
  function VirtualPath(segs: seq<string>): string {
    "/" + JoinSep(segs)
  }

  lemma {:induction false} SplitAppend(a: string, b: string)
    ensures Split(a + "/" + b) == Split(a) + Split(b)
  {
    if a == [] {
      assert a + "/" + b == "/" + b;
      assert ("/" + b)[1..] == b;
    } else {
      assert (a + "/" + b)[1..] == a[1..] + "/" + b;
      SplitAppend(a[1..], b);
    }
  }

  lemma {:induction false} SplitName(x: string)
    requires '/' !in x
    ensures Split(x) == [x]
  {
    if x != [] {
      SplitName(x[1..]);
      assert [x[0]] + x[1..] == x;
    }
  }

  lemma {:induction false} SplitJoin(xs: seq<string>)
    requires |xs| > 0
    requires forall i :: 0 <= i < |xs| ==> '/' !in xs[i]
    ensures Split(JoinSep(xs)) == xs
  {
    if |xs| == 1 {
      SplitName(xs[0]);
    } else {
      SplitAppend(xs[0], JoinSep(xs[1..]));
      SplitName(xs[0]);
      SplitJoin(xs[1..]);
      assert [xs[0]] + xs[1..] == xs;
    }
  }

  lemma {:induction false} JoinSepAppend(xs: seq<string>, ys: seq<string>)
    requires |xs| > 0 && |ys| > 0
    ensures JoinSep(xs + ys) == JoinSep(xs) + "/" + JoinSep(ys)
  {
    if |xs| == 1 {
      assert (xs + ys)[1..] == ys;
    } else {
      assert (xs + ys)[1..] == xs[1..] + ys;
      JoinSepAppend(xs[1..], ys);
    }
  }

  /** The pieces with the empty ones removed. */
  function NonEmpty(segs: seq<string>): seq<string> {
    if segs == [] then [] else if segs[0] == "" then NonEmpty(segs[1..]) else [segs[0]] + NonEmpty(segs[1..])
  }

  lemma {:induction false} NonEmptyAppend(xs: seq<string>, ys: seq<string>)
    ensures NonEmpty(xs + ys) == NonEmpty(xs) + NonEmpty(ys)
  {
    if xs == [] {
      assert xs + ys == ys;
    } else {
      assert (xs + ys)[1..] == xs[1..] + ys;
      NonEmptyAppend(xs[1..], ys);
    }
  }

  lemma {:induction false} NonEmptyNames(xs: seq<string>)
    requires AllNames(xs)
    ensures NonEmpty(xs) == xs
  {
    if xs != [] {
      NonEmptyNames(xs[1..]);
    }
  }

  /** Cleaning pieces that are all names or empty just drops the empty ones. */
  lemma {:induction false} CleanSegsPlain(segs: seq<string>, rooted: bool, acc: seq<string>)
    requires forall i :: 0 <= i < |segs| ==> segs[i] == "" || IsName(segs[i])
    ensures CleanSegs(segs, rooted, acc) == acc + NonEmpty(segs)
  {
    if segs != [] {
      CleanSegsPlain(segs[1..], rooted, if segs[0] == "" then acc else acc + [segs[0]]);
    }
  }

  lemma JoinSepHead(xs: seq<string>)
    requires |xs| > 0 && xs[0] != ""
    ensures JoinSep(xs) != "" && JoinSep(xs)[0] == xs[0][0]
  {
  }

  /** The pieces of a virtual path: a leading empty piece, then its names
      (or one more empty piece for "/"). */
  lemma SplitVirtual(vs: seq<string>)
    requires AllNames(vs)
    ensures Split(VirtualPath(vs)) == [""] + (if vs == [] then [""] else vs)
  {
    assert VirtualPath(vs) == "" + "/" + JoinSep(vs);
    SplitAppend("", JoinSep(vs));
    if vs != [] { SplitJoin(vs); }
  }

  /** The root prefix as spelled: optional leading slash, then names. */
  function RootPath(rooted: bool, rs: seq<string>): string {
    (if rooted then "/" else "") + JoinSep(rs)
  }

  lemma SplitUnderRoot(rooted: bool, rs: seq<string>, vs: seq<string>)
    requires |rs| > 0 && AllNames(rs) && AllNames(vs)
    ensures var p := RootPath(rooted, rs) + "/" + VirtualPath(vs);
            p != "" && (p[0] == '/' <==> rooted) &&
            Split(p) == (if rooted then [""] else []) + rs + [""] + (if vs == [] then [""] else vs)
  {
    var x := JoinSep(rs) + "/" + VirtualPath(vs);
    var p := RootPath(rooted, rs) + "/" + VirtualPath(vs);
    JoinSepHead(rs);
    var tail := if vs == [] then [""] else vs;
    SplitAppend(JoinSep(rs), VirtualPath(vs));
    SplitJoin(rs);
    SplitVirtual(vs);
    assert Split(x) == rs + [""] + tail;
    if rooted {
      assert p == "/" + x;
      assert p[1..] == x;
      assert Split(p) == [""] + Split(x);
    } else {
      assert p == x;
    }
  }

  lemma CleanUnderRoot(rooted: bool, rs: seq<string>, vs: seq<string>)
    requires |rs| > 0 && AllNames(rs) && AllNames(vs)
    ensures CleanSegs((if rooted then [""] else []) + rs + [""] + (if vs == [] then [""] else vs), rooted, [])
            == rs + vs
  {
    var tail := if vs == [] then [""] else vs;
    var segs := (if rooted then [""] else []) + rs + [""] + tail;
    assert forall i :: 0 <= i < |segs| ==> segs[i] == "" || IsName(segs[i]);
    CleanSegsPlain(segs, rooted, []);
    NonEmptyAppend((if rooted then [""] else []) + rs, [""]);
    NonEmptyAppend((if rooted then [""] else []) + rs + [""], tail);
    NonEmptyAppend(if rooted then [""] else [], rs);
    NonEmptyNames(rs);
    if vs != [] { NonEmptyNames(vs); }
  }

  /** For a normalised root directory and a virtual path from the bridge,
      `Join(root, v)` is plain concatenation: the result stays under the root
      and the virtual path can be read back from it. */
  lemma JoinCanonical(rooted: bool, rs: seq<string>, vs: seq<string>)
    requires |rs| > 0 && AllNames(rs) && AllNames(vs)
    ensures Join(RootPath(rooted, rs), VirtualPath(vs))
            == if vs == [] then RootPath(rooted, rs) else RootPath(rooted, rs) + VirtualPath(vs)
  {
    var root := RootPath(rooted, rs);
    var p := root + "/" + VirtualPath(vs);
    JoinSepHead(rs);
    assert root != "";
    SplitUnderRoot(rooted, rs, vs);
    CleanUnderRoot(rooted, rs, vs);
    var body := JoinSep(rs + vs);
    assert CleanSegs(Split(p), rooted, []) == rs + vs;
    assert Clean(p) == if rooted then "/" + body else body;
    if vs != [] {
      JoinSepAppend(rs, vs);
      assert body == JoinSep(rs) + VirtualPath(vs);
    } else {
      assert rs + vs == rs;
    }
  }
}
