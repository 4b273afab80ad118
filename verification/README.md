# netfilum, modelled and proved in Dafny

netfilum serves a Linux directory to a Windows mount over one TCP connection per request. This
project models the server's file-system operations, the exchange between client and server, the
mount's file handles, the way the mount shuts down, and the codecs between them, and proves what
they promise.

## How it is built

- `Wrappers`, `Protocol`: results, options, the messages and the two error-code mappings.
- `Paths`, `Names`: path normalisation on both sides; the order of names in a listing.
- `FileTree`: the flat file system, a map from path to node, with the operating system's calls and
  their error cases. `DiskHeap` and `Disk`: the same file system as a heap of inodes changed in
  place, with path walk, cursors and buffers; every call is proved to be its flat counterpart.
- `ServerSpec`: what each of the 14 requests means on the flat tree. `Server`: the handlers as
  methods over the inode heap, proved to refine it. `ServerInvariant`: what every request keeps.
- `Outcomes`, `Attributes`: the same requests told case by case in plain terms, each refusal with its
  code, each answer field by field, each changed file byte by byte; and what requests leave of a node's
  permission bits and stamps, over single requests and whole runs.
- `RenameLaws`, `Runs`, `Conservation`, `FileLaws`, `Undo`, `Repeats`: renames, identities, bytes,
  confinement to the root, listings, contents, over single requests and over whole runs; what undoes
  a request, and what repeating one does, at once or after other requests.
- `ClientSpec`, `Client`, `Handles`, `Tracking`, `MountLaws`, `StampLaws`, `FileTimes`: the mount's
  callbacks as methods on mutable file contexts; what a request does to a handle; which handles still lead to
  their nodes after any run, requests run late included; timestamps, constrained writes.
- `Exchange`: many client threads against one server, as interleaved steps. `Shutdown`: the stop
  flag, the message slot, the monitor, Ctrl+C and the main loop, as interleaved steps.
- `Utf8`, `Postcard`, `Messages`, `Rpc`, `Connections`: the wire, from characters to framed and
  sealed messages to the accept loop. `WireForms`: what the bytes are, message by message.
- `Shell`: the command line handed to `sh`, read by a tokeniser after sections 2.2.2, 2.2.3 and 2.3
  of the POSIX Shell Command Language (IEEE Std 1003.1).

`Served` (module `ServerSpec`) says what is taken of the disk and the configured root: the tree is
well formed, the root is canonical, not `/` and without NUL, its parent is a directory, and no name
inside it holds a backslash. Every request is proved to keep it. An `Env` supplies what the
operating system decides: the clock, the permissions of new nodes, how short a read is, the capacity
figures. A `Link` says whether a connection works, is lost before the server runs the request, or is
lost after.

## What turned out not to hold as one might expect

- A rename that replaces its target removes the target first. When source and target are equal or
  one lies under the other, the rename then fails and the target is gone: `RenameLaws.RenameOutcome`
  says which paths those are, and that this is the only loss.
- A listing's names cannot be asked for as `path + "/" + name` under the empty path: the server takes
  "/name" for an absolute path. `FileLaws.ListingAgreesWithStat` uses the bare name there, and
  `FileLaws.RootChildNeedsBareName` shows the other form always fails.
- `RemoveDir` of the empty path on an empty root removes the exported root for good; from then on
  everything but a `Flush` without a path fails (`Conservation.RootUntilRemoved`,
  `FileLaws.NothingWithoutRoot`).
- A rename carried out whose reply is lost leaves the handle on its old path
  (`Handles.RenameAndItsHandle`).
- A call the client gave up on may still be run, and run after a later call has been answered:
  the order in real time holds for answered calls (`Exchange.LostCallMayRunLate`). So a handle opened
  where a request given up on could still strike can lose its node (`Tracking.OpenOntoPendingLoses`,
  and `Tracking.LostDeleteHitsReopened` for a delete); `Tracking.HandlesTrackTheirNodes` says which
  handles are safe, going by paths and answers alone.
- Repeating a request with nothing run in between moves no more than two stamps for writes at an
  offset and for resizes, is refused for creates, removals and renames, and repeats the effect of an
  append (`Undo`). After other requests a write or resize repeats without effect on the bytes if by
  their paths they leave the file alone (`Repeats.WriteAgainOverRuns`), and in general a write does
  iff the file has the bytes already (`Repeats.WriteIdleIff`); another write in between is taken back
  (`Repeats.RepetitionTakesBack`).
- A request whose answer was lost may run after its repetition was answered: a removal then takes a
  new file created under the name (`Tracking.LateRemovalTakesNewFile`), and the write of a
  constrained callback can resize a file that shrank meanwhile
  (`Tracking.LateConstrainedWriteResizes`; `MountLaws.CutWriteResizesIff` says exactly when).
- Writing back the information just read can change permission bits: a node that someone but not its
  owner can write becomes writable by its owner (`MountLaws.InfoWrittenBack`).
- A constrained write that is also a write to the end of the file does grow it
  (`MountLaws.ConstrainedAppendGrows`).
- Only asking for attributes or a listing reports a lost connection; the other callbacks return the
  error and leave the mount running (`Client.RpcFsContext` methods other than `FetchAttr`).
- A reply too long for a 32-bit frame length is never sent, and the client sees the stream end
  (`Connections.LongDataIsLost`).
- The 64-bit tick count that means "never" is the one that does not survive the wire
  (`FileTimes.TicksRoundTrip`).

## Model

| member | source | states |
|---|---|---|
| Paths.NormalizeRelativePath | crates/netfilum-server/src/path.rs:3-26 | the loop over components computes `Normalize`, early returns included |
| Paths.NormalizeAccepts | crates/netfilum-server/src/path.rs:3-26 | a string is accepted iff it is not absolute and no slash-or-backslash piece is `..`; the result is its pieces without empty and `.` ones, all clean |
| Paths.NormalizeJoin | crates/netfilum-server/src/path.rs:3-26 | every path of clean names is addressable: joined with single slashes it normalises to itself |
| Paths.NormalizeIdempotent | crates/netfilum-server/src/path.rs:3-26 | an accepted result, joined again, normalises to itself |
| Paths.NormalizeAgree | crates/netfilum-server/src/path.rs:3-26 | two accepted strings agree iff their remaining pieces agree |
| Paths.BackslashUnaddressable | crates/netfilum-server/src/path.rs:4 | no accepted string has a component with a backslash |
| Paths.NormalizeChild | crates/netfilum-server/src/path.rs:3-26 | appending "/name" goes one level down, except after the empty string, where it is an error |
| Paths.NtPathNormalizes | crates/netfilum-client/src/mount.rs:866-872 | for any NT path, the client's conversion followed by the server's normaliser fails iff a component is `..`, and otherwise yields exactly its components |
| Disks.Disk.Walk | crates/netfilum-server/src/server.rs:386-395 | following a path inode by inode finds what the flat lookup finds, with the same error |
| Disks.Disk.CreateNew | crates/netfilum-server/src/server.rs:179-189 | exclusive creation in place is the flat creation, and leaves the heap representing the tree |
| Disks.Disk.RemoveDirAll | crates/netfilum-server/src/server.rs:303-304 | deleting child by child removes exactly the subtree and nothing else |
| Disks.Disk.Rename | crates/netfilum-server/src/server.rs:308 | relinking two directory entries moves the whole flat subtree; every refusal is the flat one |
| Disks.Disk.ReadNames | crates/netfilum-server/src/server.rs:204-206 | directory iteration yields each child's name once and no other |
| Disks.OpenFile.Read | crates/netfilum-server/src/server.rs:217-220 | one read fills a prefix of the buffer from the cursor on, zero bytes only at the end of the file or for an empty buffer |
| Disks.OpenFile.WriteAll | crates/netfilum-server/src/server.rs:238-244 | writing in pieces of any size adds up to one splice at the cursor, or to the part that fits below the size limit and an error |
| Server.RpcServer.Dispatched | crates/netfilum-server/src/server.rs:96-165 | for all 14 requests the handlers over the inode heap give the same reply and the same abstract tree as the flat specification |
| Server.RpcServer.CreateEntry | crates/netfilum-server/src/server.rs:172-191 | refines `DoCreate` |
| Server.RpcServer.ListDir | crates/netfilum-server/src/server.rs:193-212 | pushing entries and sorting yields the one ascending, complete listing; `FileLaws.ListingInOrder` says the order by positions |
| Server.SortEntries | crates/netfilum-server/src/server.rs:210 | sorting keeps exactly the entries; an earlier name is smaller at the first position where two differ, or a proper prefix |
| Server.RpcServer.ReadFile | crates/netfilum-server/src/server.rs:214-222 | seek, read and truncate refine `DoRead`, directories and offsets the seek refuses included |
| Server.RpcServer.WriteFile | crates/netfilum-server/src/server.rs:224-250 | seek, write and stat refine `DoWrite`, partial writes included |
| Server.RpcServer.DeletionCheck | crates/netfilum-server/src/server.rs:252-282 | refines `DoCanDelete` |
| Server.RpcServer.RenameEntry | crates/netfilum-server/src/server.rs:294-309 | remove, then rename, refines `DoRename` with its intermediate loss |
| Server.RpcServer.Resize | crates/netfilum-server/src/server.rs:311-321 | refines `DoSetLen`; the allocation flag changes nothing |
| Server.RpcServer.FlushFile | crates/netfilum-server/src/server.rs:323-337 | refines `DoFlush` |
| Server.RpcServer.UpdateBasicInfo | crates/netfilum-server/src/server.rs:339-362 | mode first, then times: refines `DoSetBasicInfo`, a mode change that stays when the times are refused included |
| Server.RpcServer.FindForNewPath | crates/netfilum-server/src/server.rs:397-407 | a target resolves to a path strictly inside the root, or with the error of the flat resolution |
| ServerInvariant.DispatchKeepsServed | crates/netfilum-server/src/server.rs:96-165 | every request keeps the tree well formed, ancestors directories, identities unique, names inside the root clean |
| Outcomes.MissingPath | crates/netfilum-server/src/server.rs:386-395 | a path in the tree is found; otherwise InvalidInput for a NUL, then NotDirectory for a file on the way, else NotFound |
| Outcomes.RefusedPath | crates/netfilum-server/src/server.rs:386-418 | a string that is no relative path is InvalidInput, and a target that is the root PermissionDenied |
| Outcomes.TargetPath | crates/netfilum-server/src/server.rs:397-407 | a target below the root resolves iff its parent is there, whatever is at the target |
| Outcomes.UnresolvedIsRefused | crates/netfilum-server/src/server.rs:96-165 | every request on a path that does not resolve is refused with that error and changes nothing |
| Outcomes.UnresolvedTargetIsRefused | crates/netfilum-server/src/server.rs:172-191 | so is a Create, or a Rename of what does resolve, onto a target that does not |
| Outcomes.AttributesDescribe | crates/netfilum-server/src/server.rs:364-384 | attributes are a node's iff field by field they say its kind, size, blocks, told times, write bits and mode |
| Outcomes.StatAnswers | crates/netfilum-server/src/server.rs:98-100 | Stat and Open answer alike, with the attributes of the node |
| Outcomes.ReadDirAnswers | crates/netfilum-server/src/server.rs:193-212 | a file is NotDirectory; a directory's listing holds each child under its name with its attributes, and no other |
| Outcomes.ReadAnswers | crates/netfilum-server/src/server.rs:214-222 | an offset beyond 2^63-1 is InvalidInput even on a directory, then IsDirectory, else bytes from the offset on |
| Outcomes.ReadsAreShort | crates/netfilum-server/src/server.rs:219 | any count from one up to what is there and asked for can come back |
| Outcomes.CanDeleteAnswers | crates/netfilum-server/src/server.rs:252-282 | each refusal with its code, for either kind asked for; granted iff of that kind and without children |
| Outcomes.FlushAnswers | crates/netfilum-server/src/server.rs:323-337 | a flush succeeds on files, directories and no path |
| Outcomes.VolumeAnswers | crates/netfilum-server/src/server.rs:152-162 | total, free and label as long as the root is there, else NotFound |
| Outcomes.WriteAnswers | crates/netfilum-server/src/server.rs:224-250 | what fits below 2^63 bytes is written, byte by byte; success counts the bytes modulo 2^32 and describes the file; what does not fit is Unexpected; IsDirectory and InvalidInput otherwise |
| Outcomes.RoomIsRoom | crates/netfilum-server/src/server.rs:243 | there is such a count of bytes that fit at every position a write can start from |
| Outcomes.SetLenAnswers | crates/netfilum-server/src/server.rs:311-321 | resized byte by byte; IsDirectory, and InvalidInput from 2^63 on; an allocation size changes nothing |
| Outcomes.RemovalAnswers | crates/netfilum-server/src/server.rs:284-292 | exactly the one node goes, or IsDirectory, NotDirectory, DirectoryNotEmpty |
| Outcomes.CreateAnswers | crates/netfilum-server/src/server.rs:172-191 | one empty node under a fresh identity with every stamp the present, or AlreadyExists, InvalidInput, NotDirectory |
| Outcomes.RenameOntoAnswers | crates/netfilum-server/src/server.rs:294-309 | onto a target that is there: AlreadyExists, or the target goes first and the rename is done, NotFound or InvalidInput |
| Outcomes.RenameAnswers | crates/netfilum-server/src/server.rs:294-309 | onto a free target: done, or InvalidInput and NotDirectory in their order, nothing changed |
| Outcomes.SetBasicInfoAnswers | crates/netfilum-server/src/server.rs:339-362 | times from 1970 on are stored, others leave a stored time, or make the present of one stored before 1970; impossible nanoseconds are InvalidInput and move neither time; the change stamp is the present iff anything was set |
| Attributes.ReadonlyBits | crates/netfilum-server/src/server.rs:474-484 | clearing the read-only state sets 0o200 and keeps every other bit; setting it clears exactly 0o222 |
| Attributes.ReadonlyExamples | crates/netfilum-server/src/server.rs:474-484 | 0444 made writable is 0644, 0777 made read-only is 0555 |
| Attributes.BitsDetermine | crates/netfilum-server/src/server.rs:474-484 | those bits determine the permissions, so that says everything |
| Attributes.SetBasicInfoLeaves | crates/netfilum-server/src/server.rs:339-362 | accepted or refused, the permission bits become just that, the creation time and the bytes stay |
| Attributes.WriteLeaves | crates/netfilum-server/src/server.rs:224-250 | a write keeps the file's permission bits, creation and access times, in the disk and in the answer; the other two stamps move iff a byte was written |
| Attributes.SetLenLeaves | crates/netfilum-server/src/server.rs:311-321 | so does a resize |
| Attributes.RunKeepsNode | crates/netfilum-server/src/server.rs:96-165 | over any run a surviving node keeps its kind and creation time, and its permission bits unless a SetBasicInfo with a read-only value resolved to it |
| Conservation.OutsideExactlyRoot | crates/netfilum-server/src/server.rs:397-418 | a Create or Rename target is rejected as outside the root iff it normalises to the empty path |
| RenameLaws.RenameOutcome | crates/netfilum-server/src/server.rs:294-309 | success iff allowed, and then exactly the subtree moves; each failure with its error, leaving the tree as it was or without exactly the old target subtree, the latter only for related paths |
| RenameLaws.MovesSubtreeUnique | crates/netfilum-server/src/server.rs:308 | the description of a moved subtree determines the whole tree, so it says everything |
| Runs.KeptInPlace | crates/netfilum-server/src/server.rs:96-165 | requests other than removals and renames leave every node on its path with its identity and kind, and add at most one identity, a new one |
| Runs.StepLoses | crates/netfilum-server/src/server.rs:284-309 | a node leaves the tree iff the request removes that file or empty directory or replaces it or an ancestor |
| Conservation.RunLoses | crates/netfilum-server/src/server.rs:96-165 | over any run a node is lost iff some request of the run removes it |
| Conservation.RunKeepsData | crates/netfilum-server/src/server.rs:224-250 | over any run a surviving file has its bytes unless a Write, or a SetLen without the allocation flag, resolved to it |
| Conservation.QueriesKeepEverything | crates/netfilum-server/src/server.rs:96-165 | any run of read-style requests leaves the disk as it was |
| Conservation.RunConfined | crates/netfilum-server/src/server.rs:386-418 | over any run nothing outside the root changes |
| Conservation.StepConfined | crates/netfilum-server/src/server.rs:284-309 | one request changes nothing outside the root, and takes the root iff it is a RemoveDir of the empty path on an empty root |
| Conservation.RootUntilRemoved | crates/netfilum-server/src/server.rs:289-292 | the root stays a directory until it is removed while empty, and is then gone for good |
| FileLaws.ListingAgreesWithStat | crates/netfilum-server/src/server.rs:193-212 | a listing is ascending, and holds a clean name with some attributes iff Stat of that child answers those very attributes |
| FileLaws.ListingInOrder | crates/netfilum-server/src/server.rs:210 | of two listed names the earlier is smaller at the first position where they differ, or a proper prefix of the other |
| Names.LexIsPrecedes | crates/netfilum-server/src/server.rs:210 | comparing from the front is that order by positions |
| FileLaws.ListingIsClean | crates/netfilum-server/src/server.rs:204-208 | every listed name is clean, so the agreement covers the whole listing |
| FileLaws.RootChildNeedsBareName | crates/netfilum-server/src/server.rs:167-170 | under the empty path "/name" is always refused |
| FileLaws.SpliceAt | crates/netfilum-server/src/server.rs:238-243 | a write byte by byte: new bytes in its range, old bytes elsewhere, zeros in a gap |
| FileLaws.ContentsAreHistory | crates/netfilum-server/src/server.rs:224-250 | over any run, a file that survives it, followed by its identity through renames, refusals and partial writes, holds byte by byte what looking back through the edits made to it says: the last write wins, gaps and extensions read as zero |
| FileLaws.ReadsAreSlices | crates/netfilum-server/src/server.rs:214-222 | a read returns a prefix of the bytes from its offset on, empty iff asked for nothing or at the end |
| FileLaws.NothingWithoutRoot | crates/netfilum-server/src/server.rs:386-395 | with the root gone no request changes anything, and only a Flush without a path succeeds |
| Undo.CreateOutcome | crates/netfilum-server/src/server.rs:172-191 | a create succeeds iff the path is free, its parent a directory and no name holds a NUL; it then adds exactly one new empty node and answers what a stat would; refused, it changes nothing |
| Undo.CreateUndone | crates/netfilum-server/src/server.rs:284-292 | removing what was just created succeeds and gives the tree back, apart from the parent directory's stamps, which are not modelled |
| Undo.RenameUndone | crates/netfilum-server/src/server.rs:294-309 | renaming back is allowed after any rename that replaced nothing, and gives the tree back, apart from the stamps of the two parent directories and the moved node's change stamp, which are not modelled |
| Undo.WriteAgain | crates/netfilum-server/src/server.rs:224-250 | a write at an offset, repeated with nothing run in between, leaves the same bytes and gives the same outcome, errors and partial writes included; only the file's modification and change stamps move on, in the disk and in the answer |
| Undo.SetLenAgain | crates/netfilum-server/src/server.rs:311-321 | and so does a resize, repeated with nothing run in between |
| Undo.AppendAgain | crates/netfilum-server/src/server.rs:238-243 | an append, repeated, leaves the disk alone iff it had nothing to write or the file is full |
| Undo.CreateAgain | crates/netfilum-server/src/server.rs:181-188 | a create of either kind after a successful one is refused as existing and changes nothing |
| Undo.RemoveFileAgain | crates/netfilum-server/src/server.rs:284-287 | a removal after a successful one finds nothing and changes nothing |
| Undo.RemoveDirAgain | crates/netfilum-server/src/server.rs:289-292 | and so does the removal of a directory |
| Undo.RenameAgain | crates/netfilum-server/src/server.rs:294-309 | a rename after the same one succeeded finds no source, and so does not even clear its target |
| Repeats.WriteAgainOverRuns | crates/netfilum-server/src/server.rs:224-250 | a write at an offset repeated after any run of requests that by their paths neither edit, take nor move the file leaves its bytes and every other node, with the same outcome |
| Repeats.SetLenAgainOverRuns | crates/netfilum-server/src/server.rs:311-321 | so does a resize |
| Repeats.WriteIdleIff | crates/netfilum-server/src/server.rs:238-243 | on whatever disk it runs, a write at an offset leaves the bytes iff the file has them already |
| Repeats.RepetitionTakesBack | crates/netfilum-server/src/server.rs:238-243 | with another write of as many different bytes in between, the repetition changes the file back |
| FileTimes.TicksClamped | crates/netfilum-client/src/mount.rs:838-851 | the saturating, wrapping arithmetic gives the mathematical tick count, zero before the Windows epoch, the maximum beyond 64 bits |
| FileTimes.KnownTimes | crates/netfilum-client/src/mount.rs:34-35 | the two epochs and the last instant of 1999 have the tick counts they are known by |
| FileTimes.TicksRoundTrip | crates/netfilum-client/src/mount.rs:838-864 | ticks to wire to ticks is the identity on every 64-bit value but the maximum |
| FileTimes.TicksMonotone | crates/netfilum-client/src/mount.rs:838-851 | later times never have fewer ticks, the clamped and saturated ends included |
| FileTimes.WireRoundTrip | crates/netfilum-client/src/mount.rs:838-864 | wire to ticks to wire loses only the part below 100 ns, iff neither end clamps or saturates |
| ClientSpec.RefusalIsNoDisconnect | src/protocol.rs:148-183 | no error code the server sends is taken for a lost connection; the two mappings invert each other on the codes that have a kind |
| ClientSpec.LostConnectionKinds | crates/netfilum-client/src/mount.rs:753-763 | a kind is a lost connection iff no code stands for it and it is not one of the named others |
| ClientSpec.RefusalKinds | src/protocol.rs:148-164 | the kind of error the client makes of each code |
| ClientSpec.AttributesRoundTrip | crates/netfilum-client/src/mount.rs:804-827 | the attribute bits tell file from directory, and sent back they ask for the read-only state they came from |
| ClientSpec.UpdateCarriesTimes | crates/netfilum-client/src/mount.rs:478-492 | each of the four times goes out as the tick count given, and the read-only state unless the attributes are all ones |
| Client.RpcClient.Send | crates/netfilum-client/src/rpc_client.rs:23-34 | one connection, one request, no retry: lost before, the disk is as it was; otherwise the request has run; the answer is the reply, a refusal with its code, or the loss |
| Client.MountState.ReportDisconnect | crates/netfilum-client/src/mount.rs:667-673 | the first report keeps its text, and the flag is set |
| Client.MountState.MapRpcError | crates/netfilum-client/src/mount.rs:746-763 | the flag is set and the first text kept iff the failure is a lost connection; a refusal never is |
| MountLaws.AnswersShowTheNode | crates/netfilum-server/src/server.rs:364-384 | every attribute record in an answer is that of the node the path names after the request |
| MountLaws.ShownFields | crates/netfilum-client/src/mount.rs:790-819 | field by field what the mount shows of a node: attribute bits, sizes, the four times as tick counts, zeros |
| MountLaws.InfoWrittenBack | crates/netfilum-client/src/mount.rs:790-827 | information read and written back keeps the times to 100 ns, the creation time and the read-only state, and the permission bits iff the node is read-only or its owner can write it |
| Client.RpcFsContext.Open | crates/netfilum-client/src/mount.rs:301-312 | a fresh context leading to its node and information describing that node, its kind a directory iff the node is one; on failure neither; the disk untouched; a lost connection reported |
| Client.RpcFsContext.CreateFile | crates/netfilum-client/src/mount.rs:316-353 | as Open, on a node that was not there before; node and context are a directory iff bit 0 of the create options is set |
| Client.RpcFsContext.Cleanup | crates/netfilum-client/src/mount.rs:355-371 | removes exactly the one node deletable through the handle, when asked to and the request arrived, and otherwise nothing |
| Client.RpcFsContext.Rename | crates/netfilum-client/src/mount.rs:448-466 | answered, the context goes along and still leads to its node; otherwise it stays as it was, and a refusal that replaces nothing leaves the disk alone |
| Client.RpcFsContext.SetDelete | crates/netfilum-client/src/mount.rs:502-519 | granted iff deleting is not asked for, or the node is deletable now and the answer arrived; the flag changes iff granted, the disk never |
| Client.RpcFsContext.Read | crates/netfilum-client/src/mount.rs:547-569 | the copy is always within the buffer, even with the length cut to 32 bits, leaves the rest of the buffer alone, and is the file's bytes from the offset on, none only at the end or when the length so cut is zero |
| Client.RpcFsContext.Write | crates/netfilum-client/src/mount.rs:571-611 | with its write run at once or never: constrained, not to the end and both connections up, the payload is cut to what lies below the file's size, that much is laid over the file and counted, and from the size on nothing is written and 0 answered; constrained and not to the end, it changes no file's size and only bytes in its range below that size, whichever connection is lost; unconstrained and answered, the file has the bytes and the information describes it; only the Stat's lost connection is reported |
| Client.RpcFsContext.SetBasicInfo | crates/netfilum-client/src/mount.rs:468-500 | answered, the times and the read-only state took as in `MountLaws.TimesTook`, and the information describes the node |
| Client.RpcFsContext.SetFileSize | crates/netfilum-client/src/mount.rs:521-545 | answered, the file is cut or filled up with zeros to the size, and the information says so; an allocation size changes nothing |
| Client.RpcFsContext.Flush | crates/netfilum-client/src/mount.rs:373-392 | with a context, flush then stat, the information describing the node, a lost Stat reported; with none, a flush alone; nothing changes on the disk |
| Tracking.HandlesTrackTheirNodes | crates/netfilum-client/src/mount.rs:250-275 | in every run of callbacks, with connections lost at any point and the requests on them run at any later time or never, every open handle the client's own book of paths and answers leaves undoubted leads to the node it was opened or created on |
| Tracking.DoubtsHaveCause | crates/netfilum-client/src/mount.rs:301-371 | a doubt is raised only when the request sent strikes the handle's path, and was not refused or replaces, or one given up on strikes where the handle was just put |
| Tracking.CarefulHandlesTrack | crates/netfilum-client/src/mount.rs:301-371 | if opens, creates and renames stay clear of paths a request given up on could strike, renames and deletes strike no other handle, and renames are answered, every open handle does |
| Tracking.OpenOntoPendingLoses | crates/netfilum-client/src/mount.rs:301-312 | a handle opened where a pending request would take the node is doubted, and running that request next cuts it loose |
| Tracking.LostDeleteHitsReopened | crates/netfilum-client/src/mount.rs:355-371 | a delete given up on, the file opened again under its name, and the delete run late: possible from every mount with such a handle, and the new handle has lost its node |
| Tracking.CreateOntoPendingLoses | crates/netfilum-client/src/mount.rs:316-353 | the same for a handle created where a pending request would take the node |
| Tracking.LateRemovalTakesNewFile | crates/netfilum-client/src/mount.rs:355-371 | with a removal of the name pending, a file created under it is doubted, and running the removal next takes it |
| Handles.TakenExactly | crates/netfilum-server/src/server.rs:96-165 | whatever request the server runs, a handle keeps its node iff the request did not take it, and only one whose paths touch the handle can |
| Handles.RenameSparesOthers | crates/netfilum-client/src/mount.rs:448-466 | after a successful rename another handle keeps its node iff it was neither at or below the source nor at or below the target |
| Handles.RenameAndItsHandle | crates/netfilum-client/src/mount.rs:448-466 | after a rename that reached the server, the renamed handle leads to its node iff the answer arrived, or the rename failed without taking the handle's path with the target |
| Handles.CleanupRemovesOneNode | crates/netfilum-client/src/mount.rs:355-371 | whatever happened before, cleanup removes exactly the one deletable node at the handle's path, or nothing |
| Handles.GrantMeansDeletable | crates/netfilum-client/src/mount.rs:502-519 | a delete is granted iff cleanup in the same state can carry it out; a refusal leaves the flag alone |
| MountLaws.TimesEndToEnd | crates/netfilum-client/src/mount.rs:468-500 | a FILETIME from 1970 on, set through client and server and read back, is the same tick count; zero, the maximum or an earlier date leaves a stored time from 1970 on as it was; so does the other time; the read-only attribute comes back as asked; the creation time stays, and the change stamp moves iff anything was asked for |
| StampLaws.RunKeepsProper | crates/netfilum-server/src/server.rs:339-362 | whatever times are asked for, any run of requests keeps every stored stamp's nanoseconds below a second |
| StampLaws.TimesAfterAnyRun | crates/netfilum-client/src/mount.rs:468-500 | so after any run the times and the read-only state the mount sets take and come back as above |
| MountLaws.ReadonlyTakes | crates/netfilum-server/src/server.rs:474-484 | the read-only state takes, no bit but the write bits changes, and clearing it on a node its owner can write changes nothing |
| MountLaws.ConstrainedWriteOverRuns | crates/netfilum-client/src/mount.rs:581-601 | a Stat, any run of requests, then the cut Write: if a file the path then names is no smaller than the Stat said, its size stays, bytes from the offset up to that size become the payload's, every other byte and node stays |
| MountLaws.CutWriteResizesIff | crates/netfilum-client/src/mount.rs:581-601 | a Stat, any run, then the cut Write run there, even as a call given up long before: the size is kept iff the file the path then names still reaches the end of the cut; no file there, no change |
| Tracking.LateConstrainedWriteResizes | crates/netfilum-client/src/mount.rs:581-601 | the cut write given up on, the file emptied and answered, the write run late: the file grows again to the end of the cut |
| MountLaws.ConstrainedWriteStaysInside | crates/netfilum-client/src/mount.rs:581-601 | cut to a size seen at any earlier time, the write keeps the size iff the file still reaches the end of the cut |
| MountLaws.ConstrainedAppendGrows | crates/netfilum-client/src/mount.rs:581-601 | with write-to-end the cut payload is appended |
| Exchange.ExchangeIsLinearizable | crates/netfilum-client/src/rpc_client.rs:23-34 | for every interleaving: each call is run at most once, the disk is the fold over one order, every answer is the result at its place, which lies between invocation and return, and that order respects real time between answered and later calls |
| Exchange.LostCallMayRunLate | crates/netfilum-server/src/server.rs:61-94 | for any two requests there is an interleaving in which a call given up runs after a later one was answered |
| Exchange.AnyCallCanBeAnswered | crates/netfilum-client/src/rpc_client.rs:23-34 | from every reachable world a new call can be run next and get its answer |
| Exchange.AnyCallCanBeRunAndLost | crates/netfilum-server/src/server.rs:87-94 | or be run and its answer lost |
| Exchange.AnyCallCanBeLostUnrun | crates/netfilum-client/src/rpc_client.rs:23-34 | or be lost without being run |
| Shutdown.ShutdownIsSafe | crates/netfilum-client/src/mount.rs:660-744 | for every interleaving: at most one write to the slot, by the first reporter to get the lock; the reason given is that text, or an interrupt with Ctrl+C first; the client's own socket shutdown is never reported |
| Shutdown.StopIsForGood | crates/netfilum-client/src/mount.rs:666-744 | from any reachable state on, the flag never clears, the slot never changes, the reason decided stands |
| Shutdown.SlotDecides | crates/netfilum-client/src/mount.rs:735-743 | a text in the slot before the reason is decided is the reason, in every run |
| Shutdown.LossIsNotIgnored | crates/netfilum-client/src/mount.rs:697-721 | in every reachable state a quiet monitor means the flag is set, and a reporting one is a reporter of the text its read ended with |
| Shutdown.MonitorReports | crates/netfilum-client/src/mount.rs:705-717 | a monitor whose read ends with the flag clear becomes a reporter of that very text |
| Shutdown.ReportStopsTheMount | crates/netfilum-client/src/mount.rs:666-744 | from every reachable state with a report or the flag set the mount can end, with a disconnect as reason when Ctrl+C was not pressed |
| Shutdown.CtrlCStopsTheMount | crates/netfilum-client/src/mount.rs:723-744 | after Ctrl+C it can end, as interrupted when nothing was reported |
| Shutdown.FirstLossIsTheReason | crates/netfilum-client/src/mount.rs:746-751 | the first request to lose its connection can be the reason given, word for word |
| Shutdown.MonitorLossIsTheReason | crates/netfilum-client/src/mount.rs:705-717 | and so can the monitor |
| Shell.CommandReadsAsIntended | crates/netfilum-client/src/mount.rs:150-164 | for all values, the command tokenises iff none has a NUL, and then to `set -e`, a separator, and `exec` with exactly the intended words |
| Shell.ArgumentsComeBack | crates/netfilum-client/src/mount.rs:238-240 | each word expands to the value it was quoted from, the default root to `$HOME` and its suffix |
| Shell.CommandRuns | crates/netfilum-client/src/mount.rs:150-164 | the words the shell runs, spelled out with the values in their places and $HOME for the default root |
| Shell.QuotingOut | crates/netfilum-client/src/mount.rs:238-240 | a value without a quote stands between two; at a quote the value is closed, the quote put between double quotes, and the rest quoted |
| Shell.WslPathComponents | crates/netfilum-client/src/path.rs:1-14 | an accepted Windows path becomes /mnt, the drive, and exactly the Windows components |
| Shell.DriveLetters | crates/netfilum-client/src/path.rs:1-14 | which paths are refused, and that only a capital drive letter changes |
| Shell.ConvertsWindowsPathToWsl | crates/netfilum-client/src/path.rs:16-28 | the repository's own test of the conversion |
| Utf8.RoundTrip | src/rpc.rs:54-77 | every string comes back from its UTF-8 bytes |
| WireForms.CharForm | src/rpc.rs:54 | bytes are a character's iff they have the bit pattern of section 3 of RFC 3629 for it |
| WireForms.TextIsCanonical | src/rpc.rs:77 | bytes are accepted as text iff they are what some string is written as: no other form of it |
| Postcard.RoundTrip | src/rpc.rs:54-77 | for every shape and every value of it, decoding the encoding gives the value and leaves exactly what followed |
| WireForms.VarintForm | src/rpc.rs:54 | a number is seven bits to a byte, lowest first, in as few bytes as it takes |
| WireForms.NumbersRead | src/rpc.rs:77 | a 32-bit number is read iff at most five bytes of that form say one, a 64-bit one in at most ten |
| WireForms.ZigZagTable | src/protocol.rs:10-14 | signed numbers as the format's own table has them |
| Messages.RequestRoundTrip | src/protocol.rs:51-107 | every request comes back from its bytes, whatever follows |
| WireForms.RequestLayout | src/protocol.rs:51-107 | the bytes of each of the 14 requests: its number, then its fields in order |
| Messages.ResultRoundTrip | src/protocol.rs:109-138 | every reply, response or error, comes back from its bytes |
| WireForms.ResultLayout | src/protocol.rs:109-138 | the bytes of each reply and of each error code |
| Rpc.WriteMessage | src/rpc.rs:49-65 | the stream gets exactly the frame, or the part that got through before it broke and the fault, or nothing when there is no frame |
| Rpc.ReadMessage | src/rpc.rs:67-78 | result and remaining bytes are those of `Parse` |
| Rpc.FrameExists | src/rpc.rs:54-61 | a message has a frame iff nonce, tag and bytes fit a 32-bit length |
| WireForms.FrameLayout | src/rpc.rs:7-9 | four bytes of length, lowest first, twelve of nonce, then what was sealed; a data connection starts with 0, a monitor with 1 |
| Rpc.SoundCipherExists | src/rpc.rs:23-46 | what is asked of a cipher can be met |
| Rpc.FrameRoundTrip | src/rpc.rs:49-78 | reading a frame gives the message and consumes the frame, no more and no less |
| Rpc.CutFrameIsError | src/rpc.rs:71-75 | every strict prefix of a frame is an unexpected end, never a message |
| Rpc.AnyFrameIsConsumed | src/rpc.rs:67-78 | whatever a length and that many bytes hold is consumed whole, and read iff it has a nonce, opens and decodes; all else is invalid data |
| Rpc.ForeignFrameIsRefused | src/rpc.rs:33-46 | a frame this key does not open is invalid data, and is consumed all the same |
| Rpc.StreamRoundTrip | src/rpc.rs:49-78 | any number of frames, and a last one cut short, are read as the messages sent |
| Connections.HandleConnection | crates/netfilum-server/src/server.rs:66-94 | tag, request, reply: disk and bytes sent are those of `Handle` |
| Connections.Serve | crates/netfilum-server/src/server.rs:65-84 | the accept loop over any arrivals is the fold of `Handle` |
| Connections.ServingIsARun | crates/netfilum-server/src/server.rs:61-94 | whatever arrives, the disk is that of a run of the requests carried, at most one per connection, in order of acceptance |
| Connections.CutRequestDoesNothing | crates/netfilum-server/src/server.rs:87-94 | a request cut short anywhere is never run and never answered |
| Connections.OtherTagsDoNothing | crates/netfilum-server/src/server.rs:66-83 | a monitor connection, an unknown tag or no tag at all changes nothing and is answered nothing |
| Connections.SendOver | crates/netfilum-client/src/rpc_client.rs:23-34 | wherever the connection breaks in either direction, framing, serving and reading back amount to `ClientSpec.Send` over the link that break makes: lost before the server runs the request, lost after, or up |
| Connections.LongDataIsLost | src/rpc.rs:56-61 | on a connection that holds, a read's data comes back iff it is shorter than 4 GiB less 35 bytes |

## Left out

- Kernel side effects on times: access stamps moved by reads, the stamps of a directory an entry is created in, removed from or renamed within, and the change stamp of a renamed node. Modification and change stamps of a file or node written, resized or given new attributes are modelled, with one instant per request.
- Undo.CreateUndone: says the tree is as before, but not the modification and change stamps of the parent directory, which the model does not move.
- Undo.RenameUndone: says the tree is as before, but not the stamps of the two parent directories nor the change stamp of the moved node, which the model does not move.
- Conservation.RunConfined: does not speak of the stamps of the root's parent directory, which removing the root moves.
- Operating-system permission failures, quota, I/O errors, and limits on name and path length.
- MountLaws.TimesEndToEnd: takes a file system that stores every time from 1970 on to the nanosecond; one with a narrower range or coarser stamps, as ext4, clamps or rounds what a FILETIME can ask for.
- MountLaws.ReadonlyTakes: takes every permission bit asked for to be stored; the set-id bits a kernel may drop on a write, a truncation or a chmod are kept here.
- Client.RpcFsContext.Write: does not cover its write run late; MountLaws.CutWriteResizesIff does.
- Allocation: a node's blocks are its size rounded up to 4 KiB; a directory's size is 4096.
- Capacity figures (`filesystem_capacity`) are parameters; durability of `sync_all` is not modelled.
- Symbolic links, hard links and races with local programs, ruled out in README.md:120-126 of the repository; `canonicalize` is therefore "must exist".
- Texts of error messages in replies: the specification keeps the code, the wire carries any text.
- Cryptographic strength, key derivation and the random nonce: a cipher is a pair of functions of which `Rpc.Sound` says that opening undoes sealing.
- Sockets and clocks: timeouts and losses are steps, `Link` values, or how many bytes of a `Pipe` get through; the order of acceptance is arbitrary in `Exchange`. A single callback in `Client` sees a lost call run at once or never; `Tracking` and `Exchange` have it run at any later time, and the laws over runs speak of any later disk.
- Tracking.HandlesTrackTheirNodes: one mount's callbacks one at a time; two threads inside callbacks on the same handle are not modelled.
- WinFsp hosting, volume parameters, security descriptors, `DirBuffer` paging in `read_directory`, and `get_file_info` and `get_volume_info` on the client.
- Spawning the WSL server, waiting for it, `expand_root`, command-line parsing and printing.
- Shell grammar beyond words, quotes, parameters in double quotes and `;`: anything else makes the tokeniser give up.
- UTF-16 conversion: names are sequences of Unicode scalar values.
- FileTimes.TicksClamped: models a release build, where the addition of the epoch offset wraps; a debug build would stop there.
- Postcard.RoundTrip: the memory a decoder needs is not bounded.
- Messages.RequestRoundTrip: asks for an encoding shorter than 2^64 bytes, far beyond what a frame or memory can hold.
