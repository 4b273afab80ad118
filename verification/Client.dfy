/** The mount's callbacks as they run: a client sending one request per connection, file contexts
    whose path and delete flag change, and the information slots they fill
    (crates/netfilum-client/src/mount.rs, crates/netfilum-client/src/rpc_client.rs). */
module Client {
  import opened Wrappers
  import opened Protocol
  import opened Paths
  import opened FileTree
  import opened ServerSpec
  import opened Server
  import Spec = ClientSpec
  import opened FileTimes
  import Handles
  import Laws = MountLaws

  type Link = Spec.Link
  type Failure = Spec.Failure

  class RpcClient {
    const server: RpcServer

    constructor (server: RpcServer)
      ensures this.server == server
    {
      this.server := server;
    }

    // One connection, one request, no retry.
    method Send(request: Request, env: Env, link: Link) returns (r: Spec.Answer)
      requires server.Valid()
      modifies server.disk
      ensures server.Valid()
      ensures (server.disk.fs, r) == Spec.Send(server.Exported(), old(server.disk.fs), request, env, link)
      ensures link.LostBefore? ==> server.disk.fs == old(server.disk.fs)
      ensures !link.LostBefore? ==> server.disk.fs == Dispatch(server.Exported(), old(server.disk.fs), request, env).0
      ensures match link
              case LostBefore(kind, text) => r == Err(Spec.Transport(kind, text))
              case LostAfter(kind, text) => r == Err(Spec.Transport(kind, text))
              case Up =>
                match Dispatch(server.Exported(), old(server.disk.fs), request, env).1
                case Ok(response) => r == Ok(response)
                case Err(code) => r == Err(Spec.Refused(code))
    {
      if link.LostBefore? {
        return Err(Spec.Transport(link.kind, link.text));
      }
      var reply := server.Dispatched(request, env);
      return Spec.Delivered(reply, link);
    }
  }

  class MountState {
    var stop: bool
    var disconnectMessage: Option<string>

    constructor ()
      ensures !stop && disconnectMessage == None
    {
      stop, disconnectMessage := false, None;
    }

    // The first report keeps its text.
    method ReportDisconnect(message: string)
      modifies this
      ensures stop
      ensures disconnectMessage == if old(disconnectMessage).Some? then old(disconnectMessage) else Some(message)
    {
      if disconnectMessage.None? {
        disconnectMessage := Some(message);
      }
      stop := true;
    }

    // Mapping a failed send: only a lost connection is reported.
    method MapRpcError(failure: Failure)
      modifies this
      ensures (stop, disconnectMessage) == Spec.Reported(old(stop), old(disconnectMessage), Err(failure))
      ensures failure.Refused? ==> stop == old(stop) && disconnectMessage == old(disconnectMessage)
      ensures stop <==> old(stop) || Spec.IsDisconnectError(Spec.FailureKind(failure))
      ensures failure.Transport? && Spec.IsDisconnectError(failure.kind) && old(disconnectMessage).None? ==>
                disconnectMessage == Some("lost connection to server: " + failure.text)
      ensures old(disconnectMessage).Some? ==> disconnectMessage == old(disconnectMessage)
    {
      if Spec.IsDisconnectError(Spec.FailureKind(failure)) {
        ReportDisconnect(Spec.LostMessage(failure));
      }
    }
  }

  // The information block a callback fills in.
  class InfoSlot {
    var info: Spec.FileInfo

    constructor (info: Spec.FileInfo)
      ensures this.info == info
    {
      this.info := info;
    }

    method Fill(attr: FileAttr)
      modifies this
      ensures info == Spec.InfoOf(attr)
    {
      info := Spec.FileInfo(
        Spec.FileAttributesFromAttr(attr),
        if attr.allocatedSize > attr.size then attr.allocatedSize else attr.size,
        attr.size,
        WindowsTimeFromWire(attr.created),
        WindowsTimeFromWire(attr.accessed),
        WindowsTimeFromWire(attr.modified),
        WindowsTimeFromWire(if attr.changed.Some? then attr.changed else attr.modified),
        0, 0, 0, 0);
    }
  }

  class RpcFileContext {
    var path: string
    const kind: EntryKind
    var deletePending: bool
    ghost const node: nat

    ghost function Abs(): Spec.Handle
      reads this
    {
      Spec.Handle(path, kind, deletePending, node)
    }

    constructor (path: string, kind: EntryKind, ghost node: nat)
      ensures Abs() == Spec.Handle(path, kind, false, node)
    {
      this.path, this.kind, deletePending, this.node := path, kind, false, node;
    }
  }

  class RpcFsContext {
    const client: RpcClient
    const mountState: MountState

    constructor (client: RpcClient, mountState: MountState)
      ensures this.client == client && this.mountState == mountState
    {
      this.client, this.mountState := client, mountState;
    }

    ghost predicate Valid()
      reads client.server.disk
    {
      client.server.Valid()
    }

    ghost function Fs(): Fs
      reads client.server.disk
    {
      client.server.disk.fs
    }

    ghost function Ex(): Export {
      client.server.Exported()
    }

    // Asking for the attributes is the one send whose lost connection is reported.
    method FetchAttr(path: string, env: Env, link: Link) returns (r: Result<FileAttr, Failure>)
      requires Valid()
      modifies client.server.disk, mountState
      ensures Valid() && Fs() == old(Fs()) == Spec.Send(Ex(), old(Fs()), Stat(path), env, link).0
      ensures r == Spec.WantAttr(Spec.Send(Ex(), old(Fs()), Stat(path), env, link).1)
      ensures r.Ok? ==> Laws.Shows(Ex(), Fs(), path, Spec.InfoOf(r.value))
      ensures (mountState.stop, mountState.disconnectMessage) ==
              Spec.Reported(old(mountState.stop), old(mountState.disconnectMessage), Spec.Send(Ex(), old(Fs()), Stat(path), env, link).1)
    {
      hide Laws.Shows, Served;
      Laws.AnswersShowTheNode(Ex(), Fs(), Stat(path), env, link);
      var answer := client.Send(Stat(path), env, link);
      if answer.Err? {
        mountState.MapRpcError(answer.error);
      }
      return Spec.WantAttr(answer);
    }

    // An open handle leads to its node, and the information describes that node.
    method Open(fileName: string, slot: InfoSlot, env: Env, link: Link) returns (r: Result<RpcFileContext, Failure>)
      requires Valid()
      modifies client.server.disk, mountState, slot
      ensures Valid() && Fs() == old(Fs())
      ensures var made := Spec.OpenHandle(Ex(), old(Fs()), fileName, env, link).1;
              && (r.Ok? <==> made.Ok?)
              && (r.Ok? ==> fresh(r.value) && r.value.Abs() == made.value)
              && (r.Err? ==> r.error == made.error && slot.info == old(slot.info))
      ensures r.Ok? ==> Handles.LeadsIn(Ex(), Fs().tree, r.value.Abs()) && Laws.Shows(Ex(), Fs(), r.value.path, slot.info)
      ensures r.Ok? ==>
                && r.value.path == NtPathToRelative(fileName) && !r.value.deletePending
                && (r.value.kind == Directory <==> Fs().tree[Spec.Place(Ex(), r.value.path).value].DirNode?)
      ensures (mountState.stop, mountState.disconnectMessage) ==
              Spec.Reported(old(mountState.stop), old(mountState.disconnectMessage),
                            Spec.Send(Ex(), old(Fs()), Stat(NtPathToRelative(fileName)), env, link).1)
    {
      hide Laws.Shows, Served, Dispatch;
      var path := NtPathToRelative(fileName);
      var attr :- FetchAttr(path, env, link);
      Handles.MadeLeads(Ex(), Fs(), path, Stat(path), env, link);
      Laws.ShownKind(Ex(), Fs(), path, attr);
      slot.Fill(attr);
      var context := new RpcFileContext(path, attr.kind, Spec.NodeAt(Ex(), Fs(), path));
      return Ok(context);
    }

    // A created handle leads to a node that was not there before.
    method CreateFile(fileName: string, createOptions: u32, fileAttributes: u32, allocationSize: u64, slot: InfoSlot, env: Env, link: Link)
      returns (r: Result<RpcFileContext, Failure>)
      requires Valid()
      modifies client.server.disk, slot
      ensures Valid()
      ensures var (fs', made) := Spec.CreateHandle(Ex(), old(Fs()), fileName, createOptions, fileAttributes, allocationSize, env, link);
              && Fs() == fs' && (r.Ok? <==> made.Ok?)
              && (r.Ok? ==> fresh(r.value) && r.value.Abs() == made.value)
              && (r.Err? ==> r.error == made.error && slot.info == old(slot.info))
      ensures r.Ok? ==>
                && Handles.LeadsIn(Ex(), Fs().tree, r.value.Abs()) && Laws.Shows(Ex(), Fs(), r.value.path, slot.info)
                && r.value.path == NtPathToRelative(fileName) && !r.value.deletePending && r.value.node == old(Fs()).next
                && (r.value.kind == Directory <==> createOptions % 2 == 1)
                && (Fs().tree[Spec.Place(Ex(), r.value.path).value].DirNode? <==> createOptions % 2 == 1)
    {
      hide Laws.Shows, Served, Dispatch;
      var path := NtPathToRelative(fileName);
      var kind := Spec.CreateKind(createOptions);
      ghost var request, fs := Create(path, kind, fileAttributes, allocationSize), Fs();
      Laws.AnswersShowTheNode(Ex(), fs, request, env, link);
      var answer := client.Send(Create(path, kind, fileAttributes, allocationSize), env, link);
      var attr :- Spec.WantAttr(answer);
      Handles.MadeLeads(Ex(), fs, path, request, env, link);
      Handles.CreatedIsNew(Ex(), fs, path, kind, fileAttributes, allocationSize, env, link);
      Laws.ShownKind(Ex(), Fs(), path, attr);
      slot.Fill(attr);
      var context := new RpcFileContext(path, attr.kind, Spec.NodeAt(Ex(), Fs(), path));
      return Ok(context);
    }

    // Closing a handle removes the one node it may delete, or nothing.
    method Cleanup(context: RpcFileContext, deleteFlag: bool, env: Env, link: Link)
      requires Valid()
      modifies client.server.disk
      ensures Valid()
      ensures Fs() ==
              if (context.deletePending || deleteFlag) && !link.LostBefore? && Handles.Deletable(Ex(), old(Fs()), context.Abs()) then
                old(Fs()).(tree := old(Fs()).tree - {Spec.Place(Ex(), context.path).value})
              else old(Fs())
    {
      hide Served, Handles.Deletable, Dispatch;
      Handles.CleanupRemovesOneNode(Ex(), Fs(), context.Abs(), deleteFlag, env, link);
      var shouldDelete := context.deletePending || deleteFlag;
      if !shouldDelete {
        return;
      }
      var request := match context.kind
        case File => RemoveFile(context.path)
        case Directory => RemoveDir(context.path);
      var _ := client.Send(request, env, link);
    }

    // An answered rename takes the handle along with its node.
    method Rename(context: RpcFileContext, newFileName: string, replaceIfExists: bool, env: Env, link: Link)
      returns (r: Result<(), Failure>)
      requires Valid()
      modifies client.server.disk, context
      ensures Valid()
      ensures (Fs(), context.Abs(), r) == Spec.RenameHandle(Ex(), old(Fs()), old(context.Abs()), newFileName, replaceIfExists, env, link)
      ensures r.Ok? && old(Handles.LeadsIn(Ex(), Fs().tree, context.Abs())) ==> Handles.LeadsIn(Ex(), Fs().tree, context.Abs())
      ensures r.Ok? ==> context.path == NtPathToRelative(newFileName) && context.deletePending == old(context.deletePending)
      ensures r.Err? ==> context.Abs() == old(context.Abs())
      ensures r.Err? && r.error.Refused? && !replaceIfExists ==> Fs() == old(Fs())
    {
      hide Served, Dispatch, DoRename, Handles.LeadsIn;
      ghost var fs, handle := Fs(), context.Abs();
      Handles.AnsweredRename(Ex(), fs, handle, newFileName, replaceIfExists, env, link);
      var oldPath := context.path;
      var newPath := NtPathToRelative(newFileName);
      var answer := client.Send(Request.Rename(oldPath, newPath, replaceIfExists), env, link);
      if answer.Ok? {
        context.path := newPath;
      }
      return Spec.WantDone(answer);
    }

    // A delete is granted exactly when closing the handle, in this state, would carry it out.
    method SetDelete(context: RpcFileContext, deleteFile: bool, env: Env, link: Link) returns (r: Result<(), Failure>)
      requires Valid()
      modifies client.server.disk, context
      ensures Valid() && Fs() == old(Fs())
      ensures r == Spec.SetDeleteHandle(Ex(), old(Fs()), old(context.Abs()), deleteFile, env, link).2
      ensures r.Ok? <==> !deleteFile || (link.Up? && Handles.Deletable(Ex(), Fs(), old(context.Abs())))
      ensures context.Abs() == if r.Ok? then old(context.Abs()).(deletePending := deleteFile) else old(context.Abs())
    {
      hide Served, Dispatch, Handles.Deletable;
      Handles.GrantMeansDeletable(Ex(), Fs(), context.Abs(), env, link);
      if deleteFile {
        var answer := client.Send(CanDelete(context.path, context.kind), env, link);
        var _ :- Spec.WantDone(answer);
      }
      context.deletePending := deleteFile;
      return Ok(());
    }

    // Answered, the times and the read-only state took, and the information describes the node.
    method SetBasicInfo(context: RpcFileContext, fileAttributes: u32, creation: u64, access: u64, write: u64, change: u64,
                        slot: InfoSlot, env: Env, link: Link)
      returns (r: Result<(), Failure>)
      requires Valid()
      modifies client.server.disk, slot
      ensures Valid()
      ensures var request := Request.SetBasicInfo(context.path, Spec.BasicUpdate(fileAttributes, creation, access, write, change));
              var (fs', answer) := Spec.Send(Ex(), old(Fs()), request, env, link);
              Fs() == fs' && r == Spec.Told(Spec.WantAttr(answer))
      ensures r.Err? ==> slot.info == old(slot.info)
      ensures r.Ok? ==> Laws.Shows(Ex(), Fs(), context.path, slot.info)
      ensures r.Ok? ==> Laws.TookAt(Ex(), old(Fs()), Fs(), context.path, fileAttributes, access, write, env.now)
    {
      hide Served, Dispatch, Laws.Shows, Laws.TookAt;
      var update := BasicInfoUpdate(
        Spec.ReadonlyUpdateFromAttributes(fileAttributes),
        WireTimeFromWindows(creation),
        WireTimeFromWindows(access),
        WireTimeFromWindows(write),
        WireTimeFromWindows(change));
      assert update == Spec.BasicUpdate(fileAttributes, creation, access, write, change);
      Laws.AnswersShowTheNode(Ex(), Fs(), Request.SetBasicInfo(context.path, update), env, link);
      Laws.AnsweredTook(Ex(), Fs(), context.path, fileAttributes, creation, access, write, change, env, link);
      var answer := client.Send(Request.SetBasicInfo(context.path, update), env, link);
      var attr :- Spec.WantAttr(answer);
      slot.Fill(attr);
      return Ok(());
    }

    // Answered, the file has the size asked for, cut or filled up with zeros, and the information
    // says so; an allocation size changes nothing.
    method SetFileSize(context: RpcFileContext, newSize: u64, setAllocationSize: bool, slot: InfoSlot, env: Env, link: Link)
      returns (r: Result<(), Failure>)
      requires Valid()
      modifies client.server.disk, slot
      ensures Valid()
      ensures var (fs', answer) := Spec.Send(Ex(), old(Fs()), SetLen(context.path, newSize, setAllocationSize), env, link);
              Fs() == fs' && r == Spec.Told(Spec.WantAttr(answer))
      ensures r.Err? ==> slot.info == old(slot.info)
      ensures r.Ok? ==> Laws.Shows(Ex(), Fs(), context.path, slot.info)
      ensures r.Ok? ==> Laws.ResizedAt(Ex(), old(Fs()), Fs(), context.path, newSize, setAllocationSize)
      ensures r.Ok? && !setAllocationSize ==> slot.info.fileSize == newSize
    {
      hide Served, Dispatch, Laws.Shows;
      Laws.AnswersShowTheNode(Ex(), Fs(), SetLen(context.path, newSize, setAllocationSize), env, link);
      Laws.AnsweredResize(Ex(), Fs(), context.path, newSize, setAllocationSize, env, link);
      var answer := client.Send(SetLen(context.path, newSize, setAllocationSize), env, link);
      var attr :- Spec.WantAttr(answer);
      slot.Fill(attr);
      Laws.ShownSize(Ex(), Fs(), context.path, slot.info);
      return Ok(());
    }

    // Copying what the server sent into the caller's buffer: it always fits, even though the
    // length asked for is the buffer's length cut to 32 bits; and it is the file's bytes from the
    // offset on, none only at the end or for an empty buffer.
    method Read(context: RpcFileContext, buffer: array<byte>, offset: u64, env: Env, link: Link) returns (r: Result<u32, Failure>)
      requires Valid()
      modifies client.server.disk, buffer
      ensures Valid() && Fs() == old(Fs())
      ensures var answer := Spec.Send(Ex(), old(Fs()), Request.Read(context.path, offset, buffer.Length % TWO_32), env, link).1;
              if answer.Err? then r == Err(answer.error) && buffer[..] == old(buffer[..])
              else
                && answer.value.Data? && |answer.value.bytes| <= buffer.Length % TWO_32
                && r == Ok(|answer.value.bytes|)
                && buffer[..] == answer.value.bytes + old(buffer[..])[|answer.value.bytes|..]
      ensures r.Ok? ==> r.value <= buffer.Length && Laws.ReadAt(Ex(), Fs(), context.path, offset, buffer.Length % TWO_32, buffer[..r.value])
    {
      hide Spec.Send, Served, Laws.ReadAt;
      Laws.ReadAnswers(Ex(), Fs(), context.path, offset, buffer.Length % TWO_32, env, link);
      var answer := client.Send(Request.Read(context.path, offset, buffer.Length % TWO_32), env, link);
      match answer {
        case Err(f) => return Err(f);
        case Ok(Data(data)) =>
          var read := |data|;
          forall i | 0 <= i < read {
            buffer[i] := data[i];
          }
          assert buffer[..read] == data;
          return Ok(read % TWO_32);
        case Ok(_) => return Err(Spec.UNEXPECTED);
      }
    }

    // A constrained write asks for the size first and is cut to it; nothing left means no request.
    // With its write run at once or never it changes no file's size, unless it goes to the end.
    method Write(context: RpcFileContext, buffer: seq<byte>, offset: u64, writeToEof: bool, constrainedIo: bool,
                 slot: InfoSlot, statEnv: Env, statLink: Link, env: Env, link: Link)
      returns (r: Result<u32, Failure>)
      requires Valid()
      modifies client.server.disk, mountState, slot
      ensures Valid()
      ensures var (fs', answer, filled) :=
                Spec.WriteSpec(Ex(), old(Fs()), context.path, buffer, offset, writeToEof, constrainedIo, statEnv, statLink, env, link);
              && Fs() == fs' && r == answer
              && slot.info == if filled.Some? then filled.value else old(slot.info)
      ensures constrainedIo && statLink.Up? && link.Up? && Laws.NamesFile(Ex(), old(Fs()), context.path) ==>
                && (if writeToEof then Laws.CutAndAppended(Ex(), old(Fs()), Fs(), context.path, offset, buffer, r)
                    else Laws.CutAndWrote(Ex(), old(Fs()), Fs(), context.path, offset, buffer, r))
                && (if offset < Laws.FileSizeAt(Ex(), old(Fs()), context.path) then r.Ok? ==> Laws.Shows(Ex(), Fs(), context.path, slot.info)
                    else slot.info == old(slot.info))
      ensures constrainedIo && !statLink.Up? ==> r == Err(Spec.Transport(statLink.kind, statLink.text)) && Fs() == old(Fs())
      ensures !constrainedIo && !link.Up? ==> r == Err(Spec.Transport(link.kind, link.text))
      ensures constrainedIo && !writeToEof ==> Laws.NeverResizes(Ex(), old(Fs()), Fs(), context.path, offset, buffer)
      ensures !constrainedIo && r.Ok? ==>
                r.value == |buffer| % TWO_32 && Laws.WroteAt(Ex(), old(Fs()), Fs(), context.path, offset, buffer, writeToEof)
      ensures !constrainedIo && r.Ok? ==> Laws.Shows(Ex(), Fs(), context.path, slot.info)
      ensures (mountState.stop, mountState.disconnectMessage) ==
              if constrainedIo then
                Spec.Reported(old(mountState.stop), old(mountState.disconnectMessage), Spec.Send(Ex(), old(Fs()), Stat(context.path), statEnv, statLink).1)
              else (old(mountState.stop), old(mountState.disconnectMessage))
    {
      hide Spec.Send, Spec.Reported, Spec.WriteSpec, Served, Dispatch, Spec.Place, WellFormed;
      hide Laws.Shows, Laws.NeverResizes, Laws.WroteAt, Laws.CutAndWrote, Laws.CutAndAppended, Laws.NamesFile, Laws.FileSizeAt;
      Laws.ConstrainedCallbackNeverResizes(Ex(), Fs(), context.path, buffer, offset, statEnv, statLink, env, link);
      Laws.WriteCallbackTook(Ex(), Fs(), context.path, buffer, offset, writeToEof, statEnv, statLink, env, link);
      Laws.LostWriteFails(Ex(), Fs(), context.path, buffer, offset, writeToEof, constrainedIo, statEnv, statLink, env, link);
      if constrainedIo && statLink.Up? && link.Up? && Laws.NamesFile(Ex(), Fs(), context.path) {
        Laws.ConstrainedCallbackWrites(Ex(), Fs(), context.path, buffer, offset, writeToEof, statEnv, statLink, env, link);
      }
      r := CutAndSend(context, buffer, offset, writeToEof, constrainedIo, slot, statEnv, statLink, env, link);
    }

    // The callback's two requests, the first for the size when the write is constrained.
    method CutAndSend(context: RpcFileContext, buffer: seq<byte>, offset: u64, writeToEof: bool, constrainedIo: bool,
                      slot: InfoSlot, statEnv: Env, statLink: Link, env: Env, link: Link)
      returns (r: Result<u32, Failure>)
      requires Valid()
      modifies client.server.disk, mountState, slot
      ensures Valid()
      ensures var (fs', answer, filled) :=
                Spec.WriteSpec(Ex(), old(Fs()), context.path, buffer, offset, writeToEof, constrainedIo, statEnv, statLink, env, link);
              && Fs() == fs' && r == answer
              && slot.info == if filled.Some? then filled.value else old(slot.info)
      ensures (mountState.stop, mountState.disconnectMessage) ==
              if constrainedIo then
                Spec.Reported(old(mountState.stop), old(mountState.disconnectMessage), Spec.Send(Ex(), old(Fs()), Stat(context.path), statEnv, statLink).1)
              else (old(mountState.stop), old(mountState.disconnectMessage))
    {
      hide Spec.Send, Spec.Reported, Spec.InfoOf, Spec.Written, Spec.Filled, Served, Dispatch, Spec.Place, WellFormed, Spec.WantAttr;
      hide Laws.Shows;
      var payload := buffer;
      if constrainedIo {
        var attr :- FetchAttr(context.path, statEnv, statLink);
        if offset >= attr.size {
          return Ok(0);
        }
        var maxLen := attr.size - offset;
        if |payload| > maxLen {
          payload := payload[..maxLen];
        }
      }
      r := SendPayload(context, payload, offset, writeToEof, slot, env, link);
    }

    // The write request itself, and filling in what its answer says.
    method SendPayload(context: RpcFileContext, payload: seq<byte>, offset: u64, writeToEof: bool, slot: InfoSlot, env: Env, link: Link)
      returns (r: Result<u32, Failure>)
      requires Valid()
      modifies client.server.disk, slot
      ensures Valid()
      ensures var (fs', answer) := Spec.Send(Ex(), old(Fs()), Request.Write(context.path, offset, payload, writeToEof), env, link);
              && Fs() == fs' && r == Spec.Written(answer)
              && slot.info == if Spec.Filled(answer).Some? then Spec.Filled(answer).value else old(slot.info)
    {
      hide Spec.Send, Served;
      var answer := client.Send(Request.Write(context.path, offset, payload, writeToEof), env, link);
      match answer {
        case Err(f) => return Err(f);
        case Ok(WriteResult(written, attr)) =>
          slot.Fill(attr);
          return Ok(written);
        case Ok(_) => return Err(Spec.UNEXPECTED);
      }
    }

    // Flushing an open file and asking for its attributes, or flushing with no file at all.
    method Flush(context: RpcFileContext?, slot: InfoSlot, env: Env, link: Link, statEnv: Env, statLink: Link)
      returns (r: Result<(), Failure>)
      requires Valid()
      modifies client.server.disk, mountState, slot
      ensures Valid() && Fs() == old(Fs())
      ensures context == null ==>
                && (r.Ok? <==> link.Up?) && slot.info == old(slot.info)
                && mountState.stop == old(mountState.stop) && mountState.disconnectMessage == old(mountState.disconnectMessage)
      ensures context != null ==>
                var flushed := Spec.WantDone(Spec.Send(Ex(), old(Fs()), Request.Flush(Some(context.path)), env, link).1);
                var stat := Spec.Send(Ex(), old(Fs()), Stat(context.path), statEnv, statLink).1;
                && r == (if flushed.Err? then flushed else Spec.Told(Spec.WantAttr(stat)))
                && (if r.Ok? then Laws.Shows(Ex(), Fs(), context.path, slot.info) else slot.info == old(slot.info))
                && (mountState.stop, mountState.disconnectMessage) ==
                   if flushed.Ok? then Spec.Reported(old(mountState.stop), old(mountState.disconnectMessage), stat)
                   else (old(mountState.stop), old(mountState.disconnectMessage))
    {
      hide Served, Dispatch, Spec.Send, Spec.Reported, Laws.Shows;
      Laws.FlushSends(Ex(), Fs(), if context == null then None else Some(context.path), env, link);
      if context == null {
        var answer := client.Send(Request.Flush(None), env, link);
        return Spec.WantDone(answer);
      }
      var answer := client.Send(Request.Flush(Some(context.path)), env, link);
      var _ :- Spec.WantDone(answer);
      var attr :- FetchAttr(context.path, statEnv, statLink);
      slot.Fill(attr);
      return Ok(());
    }
  }
}
