/** What each request means on the flat tree: the specification the server's handlers meet
    (crates/netfilum-server/src/server.rs). */
module ServerSpec {
  import opened Wrappers
  import opened Protocol
  import opened Paths
  import opened Names
  import opened FileTree

  type Reply = Result<Response, ErrorCode>

  // ---- Resolving ----

  function Joined(root: Path, relative: string): Result<Path, ErrorCode> {
    match Normalize(relative)
    case Ok(rel) => Ok(root + rel)
    case Err(_) => Err(InvalidInput)
  }

  function EnsureWithinRoot(root: Path, p: Path): Result<(), ErrorCode> {
    if root <= p then Ok(()) else Err(PermissionDenied)
  }

  function ResolveExisting(root: Path, t: Tree, relative: string): Result<Path, ErrorCode> {
    var joined :- Joined(root, relative);
    var _ :- Lookup(t, joined);
    var _ :- EnsureWithinRoot(root, joined);
    Ok(joined)
  }

  function ResolveForNewPath(root: Path, t: Tree, relative: string): Result<Path, ErrorCode>
    requires root != []
  {
    var joined :- Joined(root, relative);
    var _ :- Lookup(t, Parent(joined));
    var _ :- EnsureWithinRoot(root, Parent(joined));
    Ok(joined)
  }

  // ---- Attributes ----

  const DIR_SIZE := 4096

  function SizeOf(node: Node): nat {
    if node.FileNode? then |node.data| else DIR_SIZE
  }

  function BlocksOf(node: Node): nat {
    (SizeOf(node) + 4095) / 4096 * 8
  }

  // st_mode: the file-type bits over the permission bits
  function ModeOf(node: Node): u32 {
    (if node.DirNode? then 0x4000 else 0x8000) + node.meta.perm
  }

  function SystemTimeToWire(value: Option<FileTimeValue>): Option<FileTimeValue> {
    if value.Some? && value.value.secs >= 0 then value else None
  }

  function KindOf(node: Node): EntryKind {
    if node.DirNode? then Directory else File
  }

  function AttrOf(node: Node): FileAttr
    requires SizeOf(node) <= MAX_FILE
  {
    FileAttr(
      KindOf(node),
      SizeOf(node),
      BlocksOf(node) * 512,
      SystemTimeToWire(node.meta.created),
      SystemTimeToWire(Some(node.meta.accessed)),
      SystemTimeToWire(Some(node.meta.modified)),
      Some(node.meta.changed),
      IsReadonly(node.meta.perm),
      Some(ModeOf(node)))
  }

  ghost predicate Sized(t: Tree) {
    forall p :: p in t ==> SizeOf(t[p]) <= MAX_FILE
  }

  function AttrForPath(t: Tree, p: Path): Result<FileAttr, ErrorCode>
    requires Sized(t)
  {
    var node :- Lookup(t, p);
    Ok(AttrOf(node))
  }

  // ---- Listing ----

  ghost function ChildNames(t: Tree, p: Path): set<string> {
    set q | q in t && q != [] && Parent(q) == p :: Base(q)
  }

  lemma ChildNamesMeaning(t: Tree, p: Path, name: string)
    ensures name in ChildNames(t, p) <==> Child(p, name) in t
  {
    if name in ChildNames(t, p) {
      var q :| q in t && q != [] && Parent(q) == p && Base(q) == name;
      assert q == Child(p, name);
    }
  }

  ghost function EntriesFor(t: Tree, p: Path, names: seq<string>): (entries: seq<DirEntry>)
    requires Sized(t) && forall x :: x in names ==> Child(p, x) in t
    ensures |entries| == |names|
    ensures forall i :: 0 <= i < |names| ==> entries[i] == DirEntry(names[i], AttrOf(t[Child(p, names[i])]))
  {
    seq(|names|, i requires 0 <= i < |names| =>
      assert names[i] in names;
      DirEntry(names[i], AttrOf(t[Child(p, names[i])])))
  }

  ghost function Listing(t: Tree, p: Path): seq<DirEntry>
    requires Sized(t)
  {
    var names := SortedNames(ChildNames(t, p));
    assert forall x :: x in names ==> Child(p, x) in t by {
      forall x | x in names ensures Child(p, x) in t {
        ChildNamesMeaning(t, p, x);
      }
    }
    EntriesFor(t, p, names)
  }

  // A listing, described without computing it: ascending names, each child once, each with its attributes.
  ghost predicate IsListing(t: Tree, p: Path, entries: seq<DirEntry>)
    requires Sized(t)
  {
    && Ascending(NamesOf(entries))
    && (forall name :: name in NamesOf(entries) <==> Child(p, name) in t)
    && (forall i :: 0 <= i < |entries| ==> EntryAgrees(t, p, entries[i]))
  }

  function NamesOf(entries: seq<DirEntry>): (names: seq<string>)
    ensures |names| == |entries|
    ensures forall i :: 0 <= i < |names| ==> names[i] == entries[i].name
  {
    seq(|entries|, i requires 0 <= i < |entries| => entries[i].name)
  }

  ghost predicate EntryAgrees(t: Tree, p: Path, e: DirEntry)
    requires Sized(t)
  {
    Child(p, e.name) in t && e.attr == AttrOf(t[Child(p, e.name)])
  }

  // There is exactly one such listing.
  lemma ListingIsTheOne(t: Tree, p: Path, entries: seq<DirEntry>)
    requires Sized(t)
    ensures IsListing(t, p, entries) <==> entries == Listing(t, p)
  {
    var names := SortedNames(ChildNames(t, p));
    var l := Listing(t, p);
    forall x ensures x in names <==> Child(p, x) in t {
      ChildNamesMeaning(t, p, x);
    }
    assert NamesOf(l) == names;
    forall i | 0 <= i < |l| ensures EntryAgrees(t, p, l[i]) {
      assert names[i] in names;
    }
    if IsListing(t, p, entries) {
      AscendingUnique(NamesOf(entries), names);
      forall i | 0 <= i < |l| ensures entries[i] == l[i] {
        assert EntryAgrees(t, p, entries[i]) && NamesOf(entries)[i] == names[i];
      }
    }
  }

  // ---- Handlers ----

  function Done(r: Result<(), ErrorCode>): Reply {
    if r.Ok? then Ok(Empty) else Err(r.error)
  }

  function AttrReply(t: Tree, p: Path): Reply
    requires Sized(t)
  {
    var attr :- AttrForPath(t, p);
    Ok(Attr(attr))
  }

  function DoStat(root: Path, t: Tree, path: string): Reply
    requires Sized(t)
  {
    var p :- ResolveExisting(root, t, path);
    AttrReply(t, p)
  }

  ghost function DoCreate(root: Path, fs: Fs, path: string, kind: EntryKind, env: Env): (Fs, Reply)
    requires root != [] && Sized(fs.tree)
  {
    var r := ResolveForNewPath(root, fs.tree, path);
    if r.Err? then (fs, Err(r.error))
    else
      var (fs', made) := OsCreate(fs, r.value, kind, env);
      if made.Err? then (fs, Err(made.error)) else (fs', AttrReply(fs'.tree, r.value))
  }

  ghost function DoReadDir(root: Path, t: Tree, path: string): Reply
    requires Sized(t)
  {
    var p :- ResolveExisting(root, t, path);
    if t[p].FileNode? then Err(NotDirectory) else Ok(DirEntries(Listing(t, p)))
  }

  function DoRead(root: Path, t: Tree, path: string, offset: u64, length: u32, env: Env): Reply {
    var p :- ResolveExisting(root, t, path);
    if offset > MAX_FILE then Err(InvalidInput)
    else if t[p].DirNode? then Err(IsDirectory)
    else
      var n := ReadCount(|t[p].data|, offset, length, env.short);
      Ok(Data(if n == 0 then [] else t[p].data[offset..offset + n]))
  }

  ghost function DoWrite(root: Path, fs: Fs, path: string, offset: u64, data: seq<byte>, writeToEof: bool, env: Env): (Fs, Reply)
    requires Sized(fs.tree)
  {
    var r := ResolveExisting(root, fs.tree, path);
    if r.Err? then (fs, Err(r.error))
    else
      var p := r.value;
      if fs.tree[p].DirNode? then (fs, Err(IsDirectory))
      else if !writeToEof && offset > MAX_FILE then (fs, Err(InvalidInput))
      else
        var at := if writeToEof then |fs.tree[p].data| else offset;
        var n := Room(at, |data|);
        var fs' := PutSplice(fs, p, at, data[..n], env.now);
        if n < |data| then (fs', Err(Unexpected))
        else
          SpliceFits(fs.tree[p].data, at, data);
          (fs', Ok(WriteResult(|data| % TWO_32, AttrOf(fs'.tree[p]))))
  }

  function DoCanDelete(root: Path, t: Tree, path: string, kind: EntryKind): Reply {
    var p :- ResolveExisting(root, t, path);
    match kind
    case File => if t[p].DirNode? then Err(IsDirectory) else Ok(Empty)
    case Directory =>
      if t[p].FileNode? then Err(NotDirectory)
      else if HasChild(t, p) then Err(DirectoryNotEmpty)
      else Ok(Empty)
  }

  function DoRemoveFile(root: Path, fs: Fs, path: string): (Fs, Reply) {
    var r := ResolveExisting(root, fs.tree, path);
    if r.Err? then (fs, Err(r.error))
    else
      var (fs', done) := OsRemoveFile(fs, r.value);
      (fs', Done(done))
  }

  function DoRemoveDir(root: Path, fs: Fs, path: string): (Fs, Reply)
    requires root != []
  {
    var r := ResolveExisting(root, fs.tree, path);
    if r.Err? then (fs, Err(r.error))
    else
      var (fs', done) := OsRemoveDir(fs, r.value);
      (fs', Done(done))
  }

  // Two steps: a replaced target goes first, and is gone even when the rename then fails.
  ghost function DoRename(root: Path, fs: Fs, path: string, newPath: string, replaceIfExists: bool): (Fs, Reply)
    requires root != [] && WellFormed(fs)
  {
    var from := ResolveExisting(root, fs.tree, path);
    var to := ResolveForNewPath(root, fs.tree, newPath);
    if from.Err? then (fs, Err(from.error))
    else if to.Err? then (fs, Err(to.error))
    else if !replaceIfExists && to.value in fs.tree then (fs, Err(AlreadyExists))
    else
      var cleared := Cleared(fs, to.value);
      ClearedIsFree(fs, to.value);
      var (fs', done) := OsRename(cleared, from.value, to.value);
      (fs', Done(done))
  }

  function Cleared(fs: Fs, to: Path): Fs {
    if to in fs.tree then fs.(tree := Without(fs.tree, to)) else fs
  }

  lemma ClearedIsFree(fs: Fs, to: Path)
    requires WellFormed(fs) && to != []
    ensures WellFormed(Cleared(fs, to))
    ensures forall q :: q in Cleared(fs, to).tree ==> !(to <= q)
  {
    if to in fs.tree {
      WithoutKeepsForm(fs, to);
    } else {
      FreeMeansFree(fs, to);
    }
  }

  ghost function DoSetLen(root: Path, fs: Fs, path: string, size: u64, setAllocationSize: bool, env: Env): (Fs, Reply)
    requires Sized(fs.tree)
  {
    var r := ResolveExisting(root, fs.tree, path);
    if r.Err? then (fs, Err(r.error))
    else
      var p := r.value;
      if setAllocationSize then (fs, AttrReply(fs.tree, p))
      else if fs.tree[p].DirNode? then (fs, Err(IsDirectory))
      else if size > MAX_FILE then (fs, Err(InvalidInput))
      else
        var fs' := PutData(fs, p, Resized(fs.tree[p].data, size), env.now);
        (fs', AttrReply(fs'.tree, p))
  }

  function DoFlush(root: Path, t: Tree, target: Option<string>): Reply {
    if target.None? then Ok(Empty)
    else
      var p :- ResolveExisting(root, t, target.value);
      Ok(Empty)
  }

  function FileTimeToFiletime(value: FileTimeValue): Option<FileTimeValue> {
    if value.secs < 0 then None else Some(value)
  }

  // current_access_time and current_modified_time: a stamp before 1970 reads as the present
  function CurrentTime(stored: FileTimeValue, now: FileTimeValue): FileTimeValue {
    if stored.secs >= 0 then stored else now
  }

  function NextTime(asked: Option<FileTimeValue>, current: FileTimeValue): FileTimeValue {
    if asked.Some? && FileTimeToFiletime(asked.value).Some? then asked.value else current
  }

  function AfterReadonly(meta: Meta, readonly: Option<bool>, now: FileTimeValue): Meta {
    if readonly.Some? then Chmodded(meta, WithReadonly(meta.perm, readonly.value), now) else meta
  }

  // The two stamps are set together, each to what was asked or else to what it is now.
  ghost function UpdateTimes(fs: Fs, p: Path, update: BasicInfoUpdate, env: Env): (Fs, Reply)
    requires Sized(fs.tree) && p in fs.tree
  {
    var meta := fs.tree[p].meta;
    var atime := NextTime(update.lastAccessTime, CurrentTime(meta.accessed, env.now));
    var mtime := NextTime(update.lastWriteTime, CurrentTime(meta.modified, env.now));
    if update.lastAccessTime.None? && update.lastWriteTime.None? then (fs, AttrReply(fs.tree, p))
    else if !StampAllowed(atime) || !StampAllowed(mtime) then (fs, Err(InvalidInput))
    else
      var fs' := PutMeta(fs, p, Stamped(meta, atime, mtime, env.now));
      (fs', AttrReply(fs'.tree, p))
  }

  // The permission bits change first, and stay changed when the stamps are then refused.
  ghost function DoSetBasicInfo(root: Path, fs: Fs, path: string, update: BasicInfoUpdate, env: Env): (Fs, Reply)
    requires Sized(fs.tree)
  {
    var r := ResolveExisting(root, fs.tree, path);
    if r.Err? then (fs, Err(r.error))
    else
      var p := r.value;
      UpdateTimes(PutMeta(fs, p, AfterReadonly(fs.tree[p].meta, update.readonly, env.now)), p, update, env)
  }

  function DoGetVolumeInfo(root: Path, t: Tree, volumeLabel: string, env: Env): Reply {
    var _ :- Lookup(t, root);
    Ok(VolumeInfo(VolumeInfoData(env.total, env.free, volumeLabel)))
  }

  // ---- Dispatch ----

  datatype Export = Export(root: Path, volumeLabel: string)

  // What has to hold of the disk and the configured root: the root is not `/`, its parent exists,
  // and no name inside it has a backslash.
  ghost predicate Served(root: Path, fs: Fs) {
    && WellFormed(fs)
    && root != [] && !HasNul(root)
    && Parent(root) in fs.tree && fs.tree[Parent(root)].DirNode?
    && forall p :: p in fs.tree && root <= p ==> CleanPath(p[|root|..])
  }

  ghost function Dispatch(ex: Export, fs: Fs, request: Request, env: Env): (Fs, Reply)
    requires Served(ex.root, fs)
  {
    match request
    case Stat(path) => (fs, DoStat(ex.root, fs.tree, path))
    case Open(path) => (fs, DoStat(ex.root, fs.tree, path))
    case Create(path, kind, _, _) => DoCreate(ex.root, fs, path, kind, env)
    case ReadDir(path) => (fs, DoReadDir(ex.root, fs.tree, path))
    case Read(path, offset, length) => (fs, DoRead(ex.root, fs.tree, path, offset, length, env))
    case Write(path, offset, data, eof) => DoWrite(ex.root, fs, path, offset, data, eof, env)
    case CanDelete(path, kind) => (fs, DoCanDelete(ex.root, fs.tree, path, kind))
    case RemoveFile(path) => DoRemoveFile(ex.root, fs, path)
    case RemoveDir(path) => DoRemoveDir(ex.root, fs, path)
    case Rename(path, newPath, replace) => DoRename(ex.root, fs, path, newPath, replace)
    case SetLen(path, size, allocation) => DoSetLen(ex.root, fs, path, size, allocation, env)
    case Flush(target) => (fs, DoFlush(ex.root, fs.tree, target))
    case SetBasicInfo(path, update) => DoSetBasicInfo(ex.root, fs, path, update, env)
    case GetVolumeInfo => (fs, DoGetVolumeInfo(ex.root, fs.tree, ex.volumeLabel, env))
  }
}
