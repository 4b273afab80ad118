/** The request handlers, written over the disk's calls, and the flat specification they refine
    (crates/netfilum-server/src/server.rs). */
module Server {
  import opened Wrappers
  import opened Protocol
  import opened Paths
  import opened Names
  import opened FileTree
  import opened DiskHeap
  import opened Disks
  import opened ServerSpec
  import opened ServerInvariant

  class RpcServer {
    const root: Path
    const volumeLabel: string
    const disk: Disk

    ghost predicate Valid()
      reads disk
    {
      disk.Valid() && Served(root, disk.fs) && Sized(disk.fs.tree)
    }

    ghost function Exported(): Export {
      Export(root, volumeLabel)
    }

    constructor (root: Path, volumeLabel: string, disk: Disk)
      requires disk.Valid() && Served(root, disk.fs)
      ensures Valid() && this.root == root && this.volumeLabel == volumeLabel && this.disk == disk
    {
      this.root, this.volumeLabel, this.disk := root, volumeLabel, disk;
      new;
      ServedIsSized(root, disk.fs);
    }

    method Dispatched(request: Request, env: Env) returns (r: Reply)
      requires Valid()
      modifies disk
      ensures Valid()
      ensures (disk.fs, r) == Dispatch(Exported(), old(disk.fs), request, env)
    {
      hide DoStat, DoCreate, DoReadDir, DoRead, DoWrite, DoCanDelete, DoRemoveFile, DoRemoveDir, DoRename, DoSetLen, DoFlush, DoSetBasicInfo;
      match request {
        case Stat(path) => r := StatPath(path);
        case Open(path) => r := StatPath(path);
        case Create(path, kind, _, _) => r := CreateEntry(path, kind, env);
        case ReadDir(path) => r := ListDir(path);
        case Read(path, offset, length) => r := ReadFile(path, offset, length, env);
        case Write(path, offset, data, eof) => r := WriteFile(path, offset, data, eof, env);
        case CanDelete(path, kind) =>
          var done := DeletionCheck(path, kind);
          r := Done(done);
        case RemoveFile(path) =>
          var done := UnlinkFile(path);
          r := Done(done);
        case RemoveDir(path) =>
          var done := UnlinkDir(path);
          r := Done(done);
        case Rename(path, newPath, replace) =>
          var done := RenameEntry(path, newPath, replace);
          r := Done(done);
        case SetLen(path, size, allocation) => r := Resize(path, size, allocation, env);
        case Flush(target) =>
          var done := FlushFile(target);
          r := Done(done);
        case SetBasicInfo(path, update) => r := UpdateBasicInfo(path, update, env);
        case GetVolumeInfo =>
          var _ :- disk.Canonicalize(root);
          r := Ok(VolumeInfo(VolumeInfoData(env.total, env.free, volumeLabel)));
      }
    }

    // ---- Resolving ----

    method Normalized(relative: string) returns (r: Result<Path, ErrorCode>)
      ensures r == Joined(root, relative)
    {
      var rel := NormalizeRelativePath(relative);
      match rel {
        case Ok(p) => return Ok(root + p);
        case Err(_) => return Err(InvalidInput);
      }
    }

    method FindExisting(relative: string) returns (r: Result<Path, ErrorCode>)
      requires Valid()
      ensures r == ResolveExisting(root, disk.fs.tree, relative)
      ensures r.Ok? ==> r.value in disk.fs.tree && r.value != [] && root <= r.value
    {
      ResolvedExists(root, disk.fs, relative);
      var joined :- Normalized(relative);
      var resolved :- disk.Canonicalize(joined);
      var _ :- EnsureWithinRoot(root, resolved);
      return Ok(joined);
    }

    method FindForNewPath(relative: string) returns (r: Result<Path, ErrorCode>)
      requires Valid()
      ensures r == ResolveForNewPath(root, disk.fs.tree, relative)
      ensures r.Ok? ==> root < r.value && (PlainName(Base(r.value)) || HasNul(r.value))
    {
      ResolvedNew(root, disk.fs, relative);
      var joined :- Normalized(relative);
      var resolvedParent :- disk.Canonicalize(Parent(joined));
      var _ :- EnsureWithinRoot(root, resolvedParent);
      return Ok(joined);
    }

    // ---- Handlers ----

    method AttrAt(p: Path) returns (r: Result<FileAttr, ErrorCode>)
      requires disk.Valid() && Sized(disk.fs.tree)
      ensures r == AttrForPath(disk.fs.tree, p)
    {
      var metadata := disk.Metadata(p);
      match metadata {
        case Err(e) => return Err(e);
        case Ok(node) =>
          LookupFinds(disk.fs, p);
          return Ok(AttrOf(node));
      }
    }

    method ReplyAttr(p: Path) returns (r: Reply)
      requires disk.Valid() && Sized(disk.fs.tree)
      ensures r == AttrReply(disk.fs.tree, p)
    {
      var attr := AttrAt(p);
      match attr {
        case Err(e) => return Err(e);
        case Ok(a) => return Ok(Attr(a));
      }
    }

    method StatPath(path: string) returns (r: Reply)
      requires Valid()
      ensures r == DoStat(root, disk.fs.tree, path)
    {
      var p :- FindExisting(path);
      r := ReplyAttr(p);
    }

    method CreateEntry(path: string, kind: EntryKind, env: Env) returns (r: Reply)
      requires Valid()
      modifies disk
      ensures Valid()
      ensures (disk.fs, r) == DoCreate(root, old(disk.fs), path, kind, env)
    {
      DoCreateKeepsServed(root, disk.fs, path, kind, env);
      ServedIsSized(root, DoCreate(root, disk.fs, path, kind, env).0);
      var p :- FindForNewPath(path);
      var _ :- disk.CreateNew(p, kind, env);
      assert Sized(disk.fs.tree);
      r := ReplyAttr(p);
    }

    method ListDir(path: string) returns (r: Reply)
      requires Valid()
      ensures r == DoReadDir(root, disk.fs.tree, path)
    {
      var p :- FindExisting(path);
      LookupFinds(disk.fs, p);
      var found := disk.Metadata(p);
      match found {
        case Err(e) => return Err(e);
        case Ok(metadata) =>
          if !metadata.DirNode? {
            return Err(NotDirectory);
          }
      }
      var listed := disk.ReadNames(p);
      match listed {
        case Err(e) => return Err(e);
        case Ok(names) => r := ListNames(p, names);
      }
    }

    // The attributes of every name read, sorted by name.
    method ListNames(p: Path, names: seq<string>) returns (r: Reply)
      requires Valid() && p in disk.fs.tree
      requires forall name :: name in names <==> Child(p, name) in disk.fs.tree
      requires forall i, j :: 0 <= i < j < |names| ==> names[i] != names[j]
      ensures r == Ok(DirEntries(Listing(disk.fs.tree, p)))
    {
      var entries: seq<DirEntry> := [];
      for i := 0 to |names|
        invariant |entries| == i
        invariant forall k :: 0 <= k < i ==> entries[k].name == names[k]
        invariant forall k :: 0 <= k < i ==> EntryAgrees(disk.fs.tree, p, entries[k])
      {
        assert names[i] in names;
        LookupFinds(disk.fs, Child(p, names[i]));
        var attr := AttrAt(Child(p, names[i]));
        match attr {
          case Err(e) => return Err(e);
          case Ok(a) => entries := entries + [DirEntry(names[i], a)];
        }
      }
      var sorted := SortEntries(entries);
      ListingSorted(p, names, entries, sorted);
      return Ok(DirEntries(sorted));
    }

    lemma ListingSorted(p: Path, names: seq<string>, entries: seq<DirEntry>, sorted: seq<DirEntry>)
      requires Valid() && |names| == |entries|
      requires forall name :: name in names <==> Child(p, name) in disk.fs.tree
      requires forall k :: 0 <= k < |entries| ==> entries[k].name == names[k] && EntryAgrees(disk.fs.tree, p, entries[k])
      requires Ascending(NamesOf(sorted)) && forall e :: e in sorted <==> e in entries
      ensures sorted == Listing(disk.fs.tree, p)
    {
      forall name ensures name in NamesOf(sorted) <==> name in names {
        if name in names {
          var k :| 0 <= k < |names| && names[k] == name;
          assert entries[k] in entries;
          var j :| 0 <= j < |sorted| && sorted[j] == entries[k];
          assert NamesOf(sorted)[j] == name;
        }
        if name in NamesOf(sorted) {
          var j :| 0 <= j < |sorted| && NamesOf(sorted)[j] == name;
          assert sorted[j] in sorted;
          var k :| 0 <= k < |entries| && entries[k] == sorted[j];
          assert names[k] == name;
        }
      }
      forall j | 0 <= j < |sorted| ensures EntryAgrees(disk.fs.tree, p, sorted[j]) {
        assert sorted[j] in sorted;
        assert sorted[j] in entries;
      }
      ListingIsTheOne(disk.fs.tree, p, sorted);
    }

    method ReadFile(path: string, offset: u64, length: u32, env: Env) returns (r: Reply)
      requires Valid()
      ensures r == DoRead(root, disk.fs.tree, path, offset, length, env)
    {
      hide WellFormed, Represents;
      var p :- FindExisting(path);
      LookupFinds(disk.fs, p);
      var handle := disk.OpenExisting(p, false);
      match handle {
        case Err(e) => return Err(e);
        case Ok(file) =>
          var _ :- file.SeekStart(offset);
          var buffer := new byte[length];
          var read :- file.Read(buffer, env.short);
          return Ok(Data(buffer[..read]));
      }
    }

    method WriteFile(path: string, offset: u64, data: seq<byte>, writeToEof: bool, env: Env) returns (r: Reply)
      requires Valid()
      modifies disk
      ensures Valid()
      ensures (disk.fs, r) == DoWrite(root, old(disk.fs), path, offset, data, writeToEof, env)
    {
      DoWriteKeepsServed(root, disk.fs, path, offset, data, writeToEof, env);
      ServedIsSized(root, DoWrite(root, disk.fs, path, offset, data, writeToEof, env).0);
      var p :- FindExisting(path);
      LookupFinds(disk.fs, p);
      var file :- disk.OpenExisting(p, true);
      if writeToEof {
        file.SeekEnd();
      } else {
        var _ :- file.SeekStart(offset);
      }
      assert data[..|data|] == data;
      ghost var at, bytes := file.pos, disk.fs.tree[p].data;
      var _ :- file.WriteAll(data, env.now);
      SpliceFits(bytes, at, data);
      LookupFinds(disk.fs, p);
      assert Sized(disk.fs.tree);
      var attr := AttrAt(p);
      match attr {
        case Err(e) => return Err(e);
        case Ok(a) => return Ok(WriteResult(|data| % TWO_32, a));
      }
    }

    method DeletionCheck(path: string, kind: EntryKind) returns (r: Result<(), ErrorCode>)
      requires Valid()
      ensures Done(r) == DoCanDelete(root, disk.fs.tree, path, kind)
    {
      var p :- FindExisting(path);
      LookupFinds(disk.fs, p);
      var found := disk.Metadata(p);
      match found {
        case Err(e) => return Err(e);
        case Ok(metadata) =>
          if kind.File? {
            return if metadata.DirNode? then Err(IsDirectory) else Ok(());
          }
          if !metadata.DirNode? {
            return Err(NotDirectory);
          }
      }
      var listed := disk.ReadNames(p);
      match listed {
        case Err(e) => return Err(e);
        case Ok(names) =>
          HasChildMeaning(disk.fs.tree, p, names);
          return if names != [] then Err(DirectoryNotEmpty) else Ok(());
      }
    }

    method UnlinkFile(path: string) returns (r: Result<(), ErrorCode>)
      requires Valid()
      modifies disk
      ensures Valid()
      ensures (disk.fs, Done(r)) == DoRemoveFile(root, old(disk.fs), path)
    {
      DoRemoveKeepsServed(root, disk.fs, path);
      ServedIsSized(root, DoRemoveFile(root, disk.fs, path).0);
      var p :- FindExisting(path);
      r := disk.RemoveFile(p);
    }

    method UnlinkDir(path: string) returns (r: Result<(), ErrorCode>)
      requires Valid()
      modifies disk
      ensures Valid()
      ensures (disk.fs, Done(r)) == DoRemoveDir(root, old(disk.fs), path)
    {
      DoRemoveKeepsServed(root, disk.fs, path);
      ServedIsSized(root, DoRemoveDir(root, disk.fs, path).0);
      var p :- FindExisting(path);
      r := disk.RemoveDir(p);
    }

    method RenameEntry(path: string, newPath: string, replaceIfExists: bool) returns (r: Result<(), ErrorCode>)
      requires Valid()
      modifies disk
      ensures Valid()
      ensures (disk.fs, Done(r)) == DoRename(root, old(disk.fs), path, newPath, replaceIfExists)
    {
      DoRenameKeepsServed(root, disk.fs, path, newPath, replaceIfExists);
      ServedIsSized(root, DoRename(root, disk.fs, path, newPath, replaceIfExists).0);
      var from :- FindExisting(path);
      var to :- FindForNewPath(newPath);
      LookupFinds(disk.fs, to);
      var target := disk.Metadata(to);
      if !replaceIfExists && target.Ok? {
        return Err(AlreadyExists);
      }
      ClearedIsFree(disk.fs, to);
      if replaceIfExists && target.Ok? && target.value.DirNode? {
        disk.RemoveDirAll(to);
      } else if replaceIfExists && target.Ok? {
        var removed := disk.RemoveFile(to);
        match removed {
          case Err(e) => return Err(e);
          case Ok(_) =>
        }
      }
      r := disk.Rename(from, to);
    }

    method Resize(path: string, size: u64, setAllocationSize: bool, env: Env) returns (r: Reply)
      requires Valid()
      modifies disk
      ensures Valid()
      ensures (disk.fs, r) == DoSetLen(root, old(disk.fs), path, size, setAllocationSize, env)
    {
      DoSetLenKeepsServed(root, disk.fs, path, size, setAllocationSize, env);
      ServedIsSized(root, DoSetLen(root, disk.fs, path, size, setAllocationSize, env).0);
      var p :- FindExisting(path);
      LookupFinds(disk.fs, p);
      if !setAllocationSize {
        var file :- disk.OpenExisting(p, true);
        var _ :- file.SetLen(size, env.now);
      }
      assert Sized(disk.fs.tree);
      r := ReplyAttr(p);
    }

    method FlushFile(target: Option<string>) returns (r: Result<(), ErrorCode>)
      requires Valid()
      ensures Done(r) == DoFlush(root, disk.fs.tree, target)
    {
      if target.Some? {
        var p :- FindExisting(target.value);
        LookupFinds(disk.fs, p);
        var metadata := disk.Metadata(p);
        if metadata.Ok? && metadata.value.DirNode? {
          return Ok(());
        }
        var handle := disk.OpenExisting(p, true);
        match handle {
          case Err(e) => return Err(e);
          case Ok(_) =>
        }
      }
      return Ok(());
    }

    method UpdateBasicInfo(path: string, update: BasicInfoUpdate, env: Env) returns (r: Reply)
      requires Valid()
      modifies disk
      ensures Valid()
      ensures (disk.fs, r) == DoSetBasicInfo(root, old(disk.fs), path, update, env)
    {
      DoSetBasicInfoKeepsServed(root, disk.fs, path, update, env);
      ServedIsSized(root, DoSetBasicInfo(root, disk.fs, path, update, env).0);
      hide WellFormed, Represents;
      var p :- FindExisting(path);
      if update.readonly.Some? {
        var changed := MakeReadonly(p, update.readonly.value, env.now);
        match changed {
          case Err(e) => return Err(e);
          case Ok(_) =>
        }
      }
      assert disk.fs == PutMeta(old(disk.fs), p, AfterReadonly(old(disk.fs).tree[p].meta, update.readonly, env.now));
      r := StampTimes(p, update, env);
    }

    method StampTimes(p: Path, update: BasicInfoUpdate, env: Env) returns (r: Reply)
      requires disk.Valid() && Sized(disk.fs.tree) && p in disk.fs.tree
      modifies disk
      ensures disk.Valid()
      ensures (disk.fs, r) == UpdateTimes(old(disk.fs), p, update, env)
    {
      LookupFinds(disk.fs, p);
      var found := disk.Metadata(p);
      match found {
        case Err(e) => return Err(e);
        case Ok(node) =>
          var atime := NextTime(update.lastAccessTime, CurrentTime(node.meta.accessed, env.now));
          var mtime := NextTime(update.lastWriteTime, CurrentTime(node.meta.modified, env.now));
          if update.lastAccessTime.Some? || update.lastWriteTime.Some? {
            var _ :- disk.SetFileTimes(p, atime, mtime, env.now);
          }
      }
      assert Sized(disk.fs.tree);
      r := ReplyAttr(p);
    }

    method MakeReadonly(p: Path, readonly: bool, now: FileTimeValue) returns (r: Result<(), ErrorCode>)
      requires disk.Valid() && p in disk.fs.tree
      modifies disk
      ensures disk.Valid() && r == Ok(())
      ensures p in old(disk.fs).tree
      ensures disk.fs == PutMeta(old(disk.fs), p, AfterReadonly(old(disk.fs).tree[p].meta, Some(readonly), now))
    {
      LookupFinds(disk.fs, p);
      var found := disk.Metadata(p);
      match found {
        case Err(e) => return Err(e);
        case Ok(node) => r := disk.SetPermissions(p, WithReadonly(node.meta.perm, readonly), now);
      }
    }
  }

  lemma HasChildMeaning(t: Tree, p: Path, names: seq<string>)
    requires forall name :: name in names <==> Child(p, name) in t
    ensures HasChild(t, p) <==> names != []
  {
    if names != [] {
      assert names[0] in names;
      assert Parent(Child(p, names[0])) == p;
    }
    if HasChild(t, p) {
      var q :| q in t && q != [] && Parent(q) == p;
      assert Child(p, Base(q)) == q;
      assert Base(q) in names;
    }
  }

  // Sorting by name, by insertion; the names differ.
  method SortEntries(entries: seq<DirEntry>) returns (sorted: seq<DirEntry>)
    requires forall i, j :: 0 <= i < j < |entries| ==> entries[i].name != entries[j].name
    ensures Ascending(NamesOf(sorted))
    ensures forall i, j :: 0 <= i < j < |sorted| ==> Precedes(sorted[i].name, sorted[j].name)
    ensures forall e :: e in sorted <==> e in entries
  {
    sorted := [];
    for i := 0 to |entries|
      invariant Ascending(NamesOf(sorted))
      invariant forall e :: e in sorted <==> e in entries[..i]
    {
      var e := entries[i];
      var k := 0;
      while k < |sorted| && LexLess(sorted[k].name, e.name)
        invariant k <= |sorted|
        invariant forall j :: 0 <= j < k ==> LexLess(sorted[j].name, e.name)
      {
        k := k + 1;
      }
      forall j | k <= j < |sorted| ensures LexLess(e.name, sorted[j].name) {
        assert sorted[k] in sorted;
        LexTotal(e.name, sorted[k].name);
        if j > k {
          assert LexLess(NamesOf(sorted)[k], NamesOf(sorted)[j]);
          LexTransitive(e.name, sorted[k].name, sorted[j].name);
        }
      }
      InsertedAscends(sorted, k, e);
      ghost var before := sorted;
      sorted := sorted[..k] + [e] + sorted[k..];
      assert forall x :: x in sorted <==> x in before || x == e by {
        assert before == before[..k] + before[k..];
      }
      assert entries[..i + 1] == entries[..i] + [e];
    }
    assert entries[..|entries|] == entries;
    forall i, j | 0 <= i < j < |sorted| ensures Precedes(sorted[i].name, sorted[j].name) {
      assert LexLess(NamesOf(sorted)[i], NamesOf(sorted)[j]);
      LexIsPrecedes(sorted[i].name, sorted[j].name);
    }
  }

  lemma InsertedAscends(sorted: seq<DirEntry>, k: nat, e: DirEntry)
    requires Ascending(NamesOf(sorted)) && k <= |sorted|
    requires forall j :: 0 <= j < k ==> LexLess(sorted[j].name, e.name)
    requires forall j :: k <= j < |sorted| ==> LexLess(e.name, sorted[j].name)
    ensures Ascending(NamesOf(sorted[..k] + [e] + sorted[k..]))
  {
    var names, names' := NamesOf(sorted), NamesOf(sorted[..k] + [e] + sorted[k..]);
    forall i, j | 0 <= i < j < |names'| ensures LexLess(names'[i], names'[j]) {
      var i0 := if i < k then i else i - 1;
      var j0 := if j < k then j else j - 1;
      if i != k && j != k {
        assert names'[i] == names[i0] && names'[j] == names[j0];
      }
    }
  }
}
