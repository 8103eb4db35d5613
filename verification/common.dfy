/** Shared vocabulary: bytes, optional values, POSIX error numbers and time. */
module Common {

  /** One octet of file contents. */
  type byte = x: int | 0 <= x < 256

  datatype Option<+T> = None | Some(value: T)

  // Linux errno values used by the client and the server.
  const ENOENT := 2
  const EACCES := 13
  const EBUSY := 16
  const EEXIST := 17
  const ENOTDIR := 20
  const EISDIR := 21
  const EINVAL := 22
  const ENOTEMPTY := 39
  const EOPNOTSUPP := 95

  /** Timestamps are nanoseconds since the epoch. */
  const NanosPerSecond := 1_000_000_000

  /** Whole seconds of a timestamp, rounded down, as `st_mtim.tv_sec` and Go's
      `Time.Unix()` report them. */
  function Seconds(t: int): (s: int)
    ensures s * NanosPerSecond <= t < (s + 1) * NanosPerSecond
  {
    t / NanosPerSecond
  }

  /** The C string a buffer denotes: its bytes up to (not including) the first
      zero byte. This is what `strlen`-bounded copies and `const char *`
      conversions keep of a buffer. */
  function CString(b: seq<byte>): (r: seq<byte>)
    ensures r <= b
    ensures 0 !in r
    ensures |r| < |b| ==> b[|r|] == 0
  {
    if b == [] || b[0] == 0 then [] else [b[0]] + CString(b[1..])
  }

  /** A buffer without a zero byte is its own C string. */
  lemma CStringWhole(b: seq<byte>)
    requires 0 !in b
    ensures CString(b) == b
  {
  }

  /** A buffer with a zero byte loses everything from its first zero byte. */
  lemma CStringCut(b: seq<byte>)
    requires 0 in b
    ensures CString(b) < b && b[|CString(b)|] == 0
  {
  }
}
