/** The messages of the remote file system protocol, the error values the
    server's handlers return, and how a handler's return becomes what the
    client's stub reports. */
module Proto {
  import opened Common

  /** `FileInfo`, in the field order of the protocol message. */
  datatype FileInfo = FileInfo(name: string, size: int, modtime: int, isDir: bool, dirExists: bool)

  /** The zero `FileInfo` (`&pb.FileInfo{}`). */
  const EmptyInfo := FileInfo("", 0, 0, false, false)

  /** The Go error values the handlers return: `*os.PathError` and
      `*os.LinkError`, and `IoError` for a `*os.PathError` of a failed write,
      sync, chmod or close, whose errno the model leaves open. */
  datatype GoError =
    | PathError(op: string, path: string, errno: int)
    | LinkError(op: string, oldPath: string, newPath: string, errno: int)
    | IoError(op: string, path: string)

  /** What a handler returns: a message and an error (`nil` is `None`). */
  datatype Reply<T> = Reply(value: T, err: Option<GoError>)

  /** The client's view of one call: `None` when the status is not ok (the
      handler returned an error, or the transport failed), otherwise the
      message. gRPC does not deliver the message of a failed call. */
  function ToStatus<T>(r: Reply<T>): (s: Option<T>)
    ensures s.Some? <==> r.err.None?
    ensures s.Some? ==> s.value == r.value
  {
    if r.err.None? then Some(r.value) else None
  }

  /** A remote call whose arguments the client's results are stated with:
      `Stat` of a virtual path, as `getattr` issues it, and `Put` of
      contents under a virtual path, as `flush`, `truncate` and `mknod`
      issue it. */
  datatype Rpc =
    | StatCall(path: string)
    | PutCall(path: string, contents: seq<byte>)
}
