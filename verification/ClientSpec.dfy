/** What the mount's callbacks do: to the served disk, to the file handle, and in their answer
    (crates/netfilum-client/src/mount.rs). */
module ClientSpec {
  import opened Wrappers
  import opened Protocol
  import opened Paths
  import opened FileTree
  import opened ServerSpec
  import opened ServerInvariant
  import opened Runs
  import opened FileTimes

  // One connection carrying one request: it works, or is lost before the server runs the
  // request, or is lost after.
  datatype Link =
    | Up
    | LostBefore(kind: IoKind, text: string)
    | LostAfter(kind: IoKind, text: string)

  // Why a send failed: the server said so, or the connection did not carry an answer.
  datatype Failure =
    | Refused(code: ErrorCode)
    | Transport(kind: IoKind, text: string)

  function FailureKind(f: Failure): IoKind {
    match f
    case Refused(code) => KindOfCode(code)
    case Transport(kind, _) => kind
  }

  predicate IsDisconnectError(kind: IoKind) {
    || kind == KConnectionAborted || kind == KConnectionRefused || kind == KConnectionReset
    || kind == KBrokenPipe || kind == KNotConnected || kind == KUnexpectedEof
  }

  // No error code the server can send is taken for a lost connection, and what the server's own
  // I/O errors become on the way to the client never is either.
  lemma RefusalIsNoDisconnect(code: ErrorCode, kind: IoKind)
    ensures !IsDisconnectError(FailureKind(Refused(code)))
    ensures CodeOfKind(KindOfCode(code)) == code
    ensures KindOfCode(CodeOfKind(kind)) == kind || CodeOfKind(kind) == Unexpected
  {
  }

  // A lost connection is told by the kinds of error no code stands for, apart from bad data, a
  // timeout, a full disk or whatever else is only unexpected.
  lemma LostConnectionKinds(kind: IoKind)
    ensures IsDisconnectError(kind) <==>
            && CodeOfKind(kind) == Unexpected
            && kind != KOther && kind != KInvalidData && kind != KTimedOut && kind != KWouldBlock && kind != KFileTooLarge
  {
  }

  // What the client makes of each code.
  lemma RefusalKinds()
    ensures FailureKind(Refused(NotFound)) == KNotFound && FailureKind(Refused(AlreadyExists)) == KAlreadyExists
    ensures FailureKind(Refused(PermissionDenied)) == KPermissionDenied && FailureKind(Refused(InvalidInput)) == KInvalidInput
    ensures FailureKind(Refused(NotDirectory)) == KNotADirectory && FailureKind(Refused(IsDirectory)) == KIsADirectory
    ensures FailureKind(Refused(DirectoryNotEmpty)) == KDirectoryNotEmpty && FailureKind(Refused(Unsupported)) == KUnsupported
    ensures FailureKind(Refused(Unexpected)) == KOther
  {
  }

  type Answer = Result<Response, Failure>

  function Delivered(reply: Reply, link: Link): Answer {
    if link.LostAfter? then Err(Transport(link.kind, link.text))
    else match reply
      case Ok(response) => Ok(response)
      case Err(code) => Err(Refused(code))
  }

  ghost function Send(ex: Export, fs: Fs, request: Request, env: Env, link: Link): (Fs, Answer)
    requires Served(ex.root, fs)
  {
    if link.LostBefore? then (fs, Err(Transport(link.kind, link.text)))
    else
      var (fs', reply) := Dispatch(ex, fs, request, env);
      (fs', Delivered(reply, link))
  }

  lemma SendKeepsServed(ex: Export, fs: Fs, request: Request, env: Env, link: Link)
    requires Served(ex.root, fs)
    ensures Served(ex.root, Send(ex, fs, request, env, link).0)
    ensures Send(ex, fs, request, env, link).0 == fs || Send(ex, fs, request, env, link).0 == Step(ex, fs, Call(request, env))
  {
    DispatchKeepsServed(ex, fs, request, env);
  }

  const UNEXPECTED := Transport(KOther, "unexpected response")

  function WantAttr(answer: Answer): Result<FileAttr, Failure> {
    match answer
    case Ok(Attr(attr)) => Ok(attr)
    case Ok(_) => Err(UNEXPECTED)
    case Err(f) => Err(f)
  }

  function WantDone(answer: Answer): Result<(), Failure> {
    match answer
    case Ok(_) => Ok(())
    case Err(f) => Err(f)
  }

  // ---- Reporting a lost connection ----

  function LostMessage(failure: Failure): string {
    "lost connection to server: " + if failure.Transport? then failure.text else ""
  }

  predicate LooksLost(answer: Answer) {
    answer.Err? && IsDisconnectError(FailureKind(answer.error))
  }

  // The stop flag and the message slot after an answer that goes through map_rpc_error: only a lost
  // connection is reported, and the first text stays.
  function Reported(stop: bool, message: Option<string>, answer: Answer): (bool, Option<string>) {
    if LooksLost(answer) then (true, if message.Some? then message else Some(LostMessage(answer.error)))
    else (stop, message)
  }

  // ---- Attributes ----

  const FILE_ATTRIBUTE_READONLY: u32 := 0x1
  const FILE_ATTRIBUTE_DIRECTORY: u32 := 0x10
  const FILE_ATTRIBUTE_ARCHIVE: u32 := 0x20
  const INVALID_FILE_ATTRIBUTES: u32 := 0xffff_ffff

  function FileAttributesFromAttr(attr: FileAttr): u32 {
    (if attr.kind.Directory? then FILE_ATTRIBUTE_DIRECTORY else FILE_ATTRIBUTE_ARCHIVE)
    + (if attr.readonly then FILE_ATTRIBUTE_READONLY else 0)
  }

  function ReadonlyUpdateFromAttributes(fileAttributes: u32): Option<bool> {
    if fileAttributes == INVALID_FILE_ATTRIBUTES then None else Some(fileAttributes % 2 == 1)
  }

  datatype FileInfo = FileInfo(
    fileAttributes: u32,
    allocationSize: u64,
    fileSize: u64,
    creationTime: u64,
    lastAccessTime: u64,
    lastWriteTime: u64,
    changeTime: u64,
    reparseTag: u32,
    indexNumber: u64,
    hardLinks: u32,
    eaSize: u32)

  function InfoOf(attr: FileAttr): FileInfo {
    FileInfo(
      FileAttributesFromAttr(attr),
      if attr.allocatedSize > attr.size then attr.allocatedSize else attr.size,
      attr.size,
      WindowsTimeFromWire(attr.created),
      WindowsTimeFromWire(attr.accessed),
      WindowsTimeFromWire(attr.modified),
      WindowsTimeFromWire(if attr.changed.Some? then attr.changed else attr.modified),
      0, 0, 0, 0)
  }

  // ---- Handles ----

  // `node` is the identity of the node the handle was opened or created on.
  datatype Handle = Handle(path: string, kind: EntryKind, deletePending: bool, node: nat)

  function Place(ex: Export, path: string): Result<Path, ErrorCode> {
    Joined(ex.root, path)
  }

  ghost function NodeAt(ex: Export, fs: Fs, path: string): nat {
    var p := Place(ex, path);
    if p.Ok? && p.value in fs.tree then fs.tree[p.value].id else 0
  }

  ghost function OpenHandle(ex: Export, fs: Fs, fileName: string, env: Env, link: Link): (Fs, Result<Handle, Failure>)
    requires Served(ex.root, fs)
  {
    var path := NtPathToRelative(fileName);
    var (fs', answer) := Send(ex, fs, Stat(path), env, link);
    match WantAttr(answer)
    case Ok(attr) => (fs', Ok(Handle(path, attr.kind, false, NodeAt(ex, fs', path))))
    case Err(f) => (fs', Err(f))
  }

  const FILE_DIRECTORY_FILE: u32 := 1

  function CreateKind(createOptions: u32): EntryKind {
    if createOptions % 2 == FILE_DIRECTORY_FILE then Directory else File
  }

  ghost function CreateHandle(ex: Export, fs: Fs, fileName: string, createOptions: u32, fileAttributes: u32, allocationSize: u64, env: Env, link: Link)
    : (Fs, Result<Handle, Failure>)
    requires Served(ex.root, fs)
  {
    var path := NtPathToRelative(fileName);
    var (fs', answer) := Send(ex, fs, Create(path, CreateKind(createOptions), fileAttributes, allocationSize), env, link);
    match WantAttr(answer)
    case Ok(attr) => (fs', Ok(Handle(path, attr.kind, false, NodeAt(ex, fs', path))))
    case Err(f) => (fs', Err(f))
  }

  ghost function RenameHandle(ex: Export, fs: Fs, h: Handle, newFileName: string, replace: bool, env: Env, link: Link)
    : (Fs, Handle, Result<(), Failure>)
    requires Served(ex.root, fs)
  {
    var newPath := NtPathToRelative(newFileName);
    var (fs', answer) := Send(ex, fs, Rename(h.path, newPath, replace), env, link);
    (fs', if answer.Ok? then h.(path := newPath) else h, WantDone(answer))
  }

  ghost function SetDeleteHandle(ex: Export, fs: Fs, h: Handle, delete: bool, env: Env, link: Link)
    : (Fs, Handle, Result<(), Failure>)
    requires Served(ex.root, fs)
  {
    if !delete then (fs, h.(deletePending := false), Ok(()))
    else
      var (fs', answer) := Send(ex, fs, CanDelete(h.path, h.kind), env, link);
      (fs', if answer.Ok? then h.(deletePending := true) else h, WantDone(answer))
  }

  function RemovalOf(h: Handle): Request {
    match h.kind
    case File => RemoveFile(h.path)
    case Directory => RemoveDir(h.path)
  }

  ghost function CleanupHandle(ex: Export, fs: Fs, h: Handle, deleteFlag: bool, env: Env, link: Link): Fs
    requires Served(ex.root, fs)
  {
    if h.deletePending || deleteFlag then Send(ex, fs, RemovalOf(h), env, link).0 else fs
  }

  function BasicUpdate(fileAttributes: u32, creation: u64, access: u64, write: u64, change: u64): BasicInfoUpdate {
    BasicInfoUpdate(
      ReadonlyUpdateFromAttributes(fileAttributes),
      WireTimeFromWindows(creation),
      WireTimeFromWindows(access),
      WireTimeFromWindows(write),
      WireTimeFromWindows(change))
  }

  // What a constrained write is cut to, given the size just asked for; nothing means no request.
  function ConstrainedPayload(payload: seq<byte>, offset: u64, size: u64): Option<seq<byte>> {
    if offset >= size then None
    else if |payload| > size - offset then Some(payload[..size - offset])
    else Some(payload)
  }

  lemma AttributesRoundTrip(attr: FileAttr)
    ensures ReadonlyUpdateFromAttributes(FileAttributesFromAttr(attr)) == Some(attr.readonly)
    ensures FileAttributesFromAttr(attr) / 0x10 % 2 == 1 <==> attr.kind.Directory?
    ensures FileAttributesFromAttr(attr) / 0x20 % 2 == 1 <==> attr.kind.File?
    ensures FileAttributesFromAttr(attr) < 0x40 && FileAttributesFromAttr(attr) / 2 % 8 == 0
    ensures ReadonlyUpdateFromAttributes(0xffff_ffff) == None
  {
  }

  // Each of the four times goes out as the tick count given, unless that says nothing.
  lemma UpdateCarriesTimes(fileAttributes: u32, creation: u64, access: u64, write: u64, change: u64)
    ensures var u := BasicUpdate(fileAttributes, creation, access, write, change);
            && (creation != NEVER ==> WindowsTimeFromWire(u.creationTime) == creation)
            && (access != NEVER ==> WindowsTimeFromWire(u.lastAccessTime) == access)
            && (write != NEVER ==> WindowsTimeFromWire(u.lastWriteTime) == write)
            && (change != NEVER ==> WindowsTimeFromWire(u.changeTime) == change)
            && (u.readonly.None? <==> fileAttributes == 0xffff_ffff)
  {
    TicksRoundTrip(creation);
    TicksRoundTrip(access);
    TicksRoundTrip(write);
    TicksRoundTrip(change);
    hide WindowsTimeFromWire, WireTimeFromWindows;
  }

  // ---- The write callback ----

  function Told(r: Result<FileAttr, Failure>): Result<(), Failure> {
    match r
    case Ok(_) => Ok(())
    case Err(f) => Err(f)
  }

  function Written(answer: Answer): Result<u32, Failure> {
    match answer
    case Ok(WriteResult(written, _)) => Ok(written)
    case Ok(_) => Err(UNEXPECTED)
    case Err(f) => Err(f)
  }

  function Filled(answer: Answer): Option<FileInfo> {
    match answer
    case Ok(WriteResult(_, attr)) => Some(InfoOf(attr))
    case _ => None
  }

  // A write callback as at most two requests: the disk, the answer, and what the information
  // slot is filled with.
  ghost function WriteSpec(ex: Export, fs: Fs, path: string, buffer: seq<byte>, offset: u64, eof: bool, constrained: bool,
                           statEnv: Env, statLink: Link, env: Env, link: Link)
    : (Fs, Result<u32, Failure>, Option<FileInfo>)
    requires Served(ex.root, fs)
  {
    if !constrained then
      var (fs', answer) := Send(ex, fs, Request.Write(path, offset, buffer, eof), env, link);
      (fs', Written(answer), Filled(answer))
    else
      var attr := WantAttr(Send(ex, fs, Stat(path), statEnv, statLink).1);
      if attr.Err? then (fs, Err(attr.error), None)
      else
        var cut := ConstrainedPayload(buffer, offset, attr.value.size);
        if cut.None? then (fs, Ok(0), None)
        else
          var (fs', answer) := Send(ex, fs, Request.Write(path, offset, cut.value, eof), env, link);
          (fs', Written(answer), Filled(answer))
  }
}
