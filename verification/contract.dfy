/** The contract as the host drives it: one invocation at a time, each atomic.
    A call that panics is aborted by the host, so none of its writes land. */
module Contract {
  import opened Wrappers
  import opened FileStorage

  /** The four externally callable entry points with their arguments. */
  datatype Call =
    | CreateFileCall(fileName: string, fileHash: string, owner: string, encrypted: bool)
    | SetAccessControlCall(fileId: u64, user: string, permission: bool)
    | GetFileMetadataCall(fileId: u64)
    | CheckAccessCall(fileId: u64, user: string)

  /** A call together with the ledger timestamp the host supplies for it. */
  datatype Invocation = Invocation(call: Call, timestamp: u64)

  /** What the caller observes: a return value of the entry point, or a panic. */
  datatype Reply =
    | FileId(id: u64)
    | NoValue
    | Metadata(file: FileMetadata)
    | Access(granted: bool)
    | Panic(error: Error)

  /** The reply of one invocation and the storage it leaves behind. */
  datatype Outcome = Outcome(reply: Reply, state: State)

  /** The replies of a sequence of invocations and the final storage. */
  datatype Trace = Trace(replies: seq<Reply>, state: State)

  /** The counter increment of `create_file` does not overflow. */
  predicate Fits(s: State, call: Call) {
    call.CreateFileCall? ==> FileCount(s) < U64_MAX
  }

  /** One atomic invocation. */
  function Invoke(s: State, inv: Invocation): (o: Outcome)
    requires Fits(s, inv.call)
    ensures o.reply.Panic? ==> o.state == s
    ensures o.reply.FileId? <==> inv.call.CreateFileCall?
    ensures inv.call.CreateFileCall? ==> o.reply.id == FileCount(s) + 1
    ensures FileCount(o.state) == FileCount(s) + (if inv.call.CreateFileCall? then 1 else 0)
    ensures !inv.call.CreateFileCall? ==> o.state.fileMeta == s.fileMeta
    ensures !inv.call.SetAccessControlCall? ==> o.state.accessCon == s.accessCon
    ensures inv.call.GetFileMetadataCall? || inv.call.CheckAccessCall? ==> o.state == s
  {
    match inv.call
    case CreateFileCall(fileName, fileHash, owner, encrypted) =>
      var c := CreateFile(s, fileName, fileHash, owner, encrypted, inv.timestamp);
      Outcome(FileId(c.id), c.state)
    case SetAccessControlCall(fileId, user, permission) =>
      (match SetAccessControl(s, fileId, user, permission)
       case Success(s') => Outcome(NoValue, s')
       case Failure(e) => Outcome(Panic(e), s))
    case GetFileMetadataCall(fileId) =>
      (match GetFileMetadata(s, fileId)
       case Success(file) => Outcome(Metadata(file), s)
       case Failure(e) => Outcome(Panic(e), s))
    case CheckAccessCall(fileId, user) =>
      match CheckAccess(s, fileId, user)
      case Success(granted) => Outcome(Access(granted), s)
      case Failure(e) => Outcome(Panic(e), s)
  }

  /** The number of `create_file` calls in `invs`. */
  function CreateCount(invs: seq<Invocation>): nat {
    if |invs| == 0 then 0
    else (if invs[0].call.CreateFileCall? then 1 else 0) + CreateCount(invs[1..])
  }

  /** Invocations applied in order, each to the storage the previous one left. */
  function Run(s: State, invs: seq<Invocation>): (t: Trace)
    requires FileCount(s) + CreateCount(invs) <= U64_MAX
    ensures |t.replies| == |invs|
    ensures FileCount(t.state) == FileCount(s) + CreateCount(invs)
    decreases |invs|
  {
    if |invs| == 0 then Trace([], s)
    else
      var o := Invoke(s, invs[0]);
      var rest := Run(o.state, invs[1..]);
      Trace([o.reply] + rest.replies, rest.state)
  }

  /** The ids returned by the `create_file` replies of a trace, in order. */
  function CreatedIds(replies: seq<Reply>): seq<u64> {
    if |replies| == 0 then []
    else (if replies[0].FileId? then [replies[0].id] else []) + CreatedIds(replies[1..])
  }
}
