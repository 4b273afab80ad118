/** The operating system's side: a heap of inodes changed in place by the std::fs calls the server
    makes. The ghost field `fs` is the flat tree the inodes represent. */
module Disks {
  import opened Wrappers
  import opened Protocol
  import opened Paths
  import opened FileTree
  import opened DiskHeap

  function IdOf(r: Result<Node, ErrorCode>): Result<nat, ErrorCode> {
    match r
    case Ok(node) => Ok(node.id)
    case Err(e) => Err(e)
  }

  ghost function Below(t: Tree, p: Path): set<Path> {
    set q | q in t && p <= q
  }

  lemma BelowShrinks(t: Tree, t0: Tree, p: Path, c: Path)
    requires t.Keys <= t0.Keys && p < c && p in t
    ensures Below(t, c) < Below(t0, p)
  {
    assert p in Below(t0, p) && p !in Below(t, c);
  }

  lemma BelowDrops(t: Tree, p: Path, c: Path)
    requires p < c && c in t
    ensures Below(Without(t, c), p) < Below(t, p)
  {
    assert c in Below(t, p) && c !in Below(Without(t, c), p);
  }

  class Disk {
    var table: Table
    var next: nat
    const rootId: nat
    ghost var fs: Fs

    ghost predicate Valid()
      reads this
    {
      Represents(table, rootId, fs) && next == fs.next
    }

    // A disk holding only `/`.
    constructor (env: Env)
      ensures Valid()
      ensures fs == Fs(map[[] := NewNode(Directory, 0, env)], 1)
    {
      table := map[0 := DirInode(map[], NewNode(Directory, 0, env).meta)];
      next := 1;
      rootId := 0;
      fs := Fs(map[[] := NewNode(Directory, 0, env)], 1);
    }

    // Following a path name by name from `/`.
    method Walk(p: Path) returns (r: Result<nat, ErrorCode>)
      requires Valid()
      ensures r == IdOf(Lookup(fs.tree, p))
    {
      if HasNul(p) {
        return Err(InvalidInput);
      }
      var at := rootId;
      for i := 0 to |p|
        invariant p[..i] in fs.tree && fs.tree[p[..i]].id == at
      {
        assert Holds(table, fs.tree, p[..i]);
        assert Child(p[..i], p[i]) == p[..i + 1];
        match table[at] {
          case FileInode(_, _) =>
            WalkStopsAtFile(fs, p, i);
            return Err(NotDirectory);
          case DirInode(children, _) =>
            if p[i] !in children {
              WalkStopsAtGap(fs, p, i);
              return Err(NotFound);
            }
            at := children[p[i]];
        }
      }
      assert p[..|p|] == p;
      return Ok(at);
    }

    // canonicalize: with no symbolic links a path that exists is its own canonical form.
    method Canonicalize(p: Path) returns (r: Result<Path, ErrorCode>)
      requires Valid()
      ensures r == match Lookup(fs.tree, p) case Ok(_) => Ok(p) case Err(e) => Err(e)
    {
      var _ :- Walk(p);
      return Ok(p);
    }

    method Metadata(p: Path) returns (r: Result<Node, ErrorCode>)
      requires Valid()
      ensures r == Lookup(fs.tree, p)
    {
      LookupFinds(fs, p);
      var id :- Walk(p);
      assert Holds(table, fs.tree, p);
      match table[id] {
        case FileInode(data, meta) => return Ok(FileNode(id, data, meta));
        case DirInode(_, meta) => return Ok(DirNode(id, meta));
      }
    }

    // The identity of the directory at `p`, for calls that work inside it.
    method FindDir(p: Path) returns (r: Result<nat, ErrorCode>)
      requires Valid()
      ensures r == IdOf(LookupDir(fs.tree, p))
      ensures r.Ok? ==> p in fs.tree && fs.tree[p].DirNode? && r.value == fs.tree[p].id
      ensures r.Ok? ==> r.value in table && table[r.value].DirInode? && Matches(table[r.value], fs.tree, p)
    {
      LookupFinds(fs, p);
      var id :- Walk(p);
      assert Holds(table, fs.tree, p);
      return if table[id].DirInode? then Ok(id) else Err(NotDirectory);
    }

    // open with create_new for a file, mkdir for a directory
    method CreateNew(p: Path, kind: EntryKind, env: Env) returns (r: Result<(), ErrorCode>)
      requires Valid() && p != [] && (PlainName(Base(p)) || HasNul(p))
      modifies this
      ensures Valid() && (fs, r) == OsCreate(old(fs), p, kind, env)
    {
      if HasNul(p) {
        return Err(InvalidInput);
      }
      var dir :- FindDir(Parent(p));
      ChildIs(Parent(p), Base(p), p);
      if Base(p) in table[dir].children {
        return Err(AlreadyExists);
      }
      ghost var node := NewNode(kind, fs.next, env);
      var meta := Meta(env.perm, Some(env.now), env.now, env.now, env.now);
      var inode := if kind.File? then FileInode([], meta) else DirInode(map[], meta);
      AddRepresents(table, rootId, fs, p, kind, env, inode);
      table := table[next := inode];
      table := Linked(table, dir, Base(p), next);
      next := next + 1;
      fs := Fs(fs.tree[p := node], fs.next + 1);
      return Ok(());
    }

    method RemoveFile(p: Path) returns (r: Result<(), ErrorCode>)
      requires Valid() && p != []
      modifies this
      ensures Valid() && (fs, r) == OsRemoveFile(old(fs), p)
    {
      LookupFinds(fs, p);
      var id :- Walk(p);
      assert Holds(table, fs.tree, p);
      if table[id].DirInode? {
        return Err(IsDirectory);
      }
      Unlink(p);
      return Ok(());
    }

    method RemoveDir(p: Path) returns (r: Result<(), ErrorCode>)
      requires Valid() && p != []
      modifies this
      ensures Valid() && (fs, r) == OsRemoveDir(old(fs), p)
    {
      var id :- FindDir(p);
      ChildrenShow(p);
      if table[id].children != map[] {
        return Err(DirectoryNotEmpty);
      }
      Unlink(p);
      return Ok(());
    }

    lemma ChildrenShow(p: Path)
      requires Valid() && p in fs.tree && fs.tree[p].DirNode?
      ensures fs.tree[p].id in table && table[fs.tree[p].id].DirInode?
      ensures HasChild(fs.tree, p) <==> table[fs.tree[p].id].children != map[]
    {
      assert Holds(table, fs.tree, p);
      var children := table[fs.tree[p].id].children;
      if HasChild(fs.tree, p) {
        var q :| q in fs.tree && q != [] && Parent(q) == p;
        assert q == Child(p, Base(q));
        assert Base(q) in children;
      }
      if children != map[] {
        assert children.Keys != {};
        var name :| name in children;
        assert Child(p, name) in fs.tree;
      }
    }

    // Taking a node that has nothing below it out of its directory.
    method Unlink(p: Path)
      requires Valid() && p != [] && p in fs.tree
      requires fs.tree[p].FileNode? || !HasChild(fs.tree, p)
      modifies this
      ensures Valid() && fs == old(fs).(tree := Without(old(fs).tree, p))
    {
      assert Hangs(fs.tree, p);
      LookupFinds(fs, Parent(p));
      var found := FindDir(Parent(p));
      var dir := found.value;
      DropRepresents(table, rootId, fs, p);
      table := Unlinked(table, dir, Base(p));
      fs := fs.(tree := Without(fs.tree, p));
    }

    // Emptying a directory child by child, then removing it.
    method RemoveDirAll(p: Path)
      requires Valid() && p != [] && p in fs.tree && fs.tree[p].DirNode?
      modifies this
      ensures Valid() && fs == old(fs).(tree := Without(old(fs).tree, p))
      decreases Below(fs.tree, p)
    {
      hide WellFormed;
      LookupFinds(fs, p);
      var found := FindDir(p);
      var id := found.value;
      while table[id].children != map[]
        invariant Valid() && fs.next == old(fs).next
        invariant p in fs.tree && fs.tree[p] == old(fs).tree[p] && id == fs.tree[p].id
        invariant id in table && table[id].DirInode?
        invariant fs.tree.Keys <= old(fs).tree.Keys
        invariant forall q :: q in fs.tree ==> fs.tree[q] == old(fs).tree[q]
        invariant forall q :: q in old(fs).tree && !(p < q) ==> q in fs.tree
        decreases Below(fs.tree, p)
      {
        assert table[id].children.Keys != {};
        var name :| name in table[id].children;
        var c := Child(p, name);
        assert Holds(table, fs.tree, p);
        assert p < c;
        BelowShrinks(fs.tree, old(fs).tree, p, c);
        ghost var before := fs.tree;
        var child := table[id].children[name];
        assert Holds(table, fs.tree, c);
        if table[child].DirInode? {
          RemoveDirAll(c);
        } else {
          Unlink(c);
        }
        BelowDrops(before, p, c);
        assert Holds(table, fs.tree, p);
      }
      ChildrenShow(p);
      forall q | p < q ensures q !in fs.tree {
        if q in fs.tree {
          BelowNeedsChild(fs, p, q);
        }
      }
      Unlink(p);
      assert fs.tree == Without(old(fs).tree, p);
    }

    // rename(2) onto a path where nothing is: the two directory entries change, nothing is copied.
    method Rename(from: Path, to: Path) returns (r: Result<(), ErrorCode>)
      requires Valid() && from != [] && to != [] && (PlainName(Base(to)) || HasNul(to))
      requires forall q :: q in fs.tree ==> !(to <= q)
      modifies this
      ensures Valid() && (fs, r) == OsRename(old(fs), from, to)
    {
      if HasNul(from) || HasNul(to) {
        return Err(InvalidInput);
      }
      var fromDir :- FindDir(Parent(from));
      var toDir :- FindDir(Parent(to));
      ChildIs(Parent(from), Base(from), from);
      if Base(from) !in table[fromDir].children {
        return Err(NotFound);
      }
      if from <= to {
        return Err(InvalidInput);
      }
      var id := table[fromDir].children[Base(from)];
      MoveRepresents(table, rootId, fs, from, to);
      table := Unlinked(table, fromDir, Base(from));
      table := Linked(table, toDir, Base(to), id);
      fs := fs.(tree := Moved(fs.tree, from, to));
      return Ok(());
    }

    // The names in a directory, in no particular order.
    method ReadNames(p: Path) returns (r: Result<seq<string>, ErrorCode>)
      requires Valid()
      ensures LookupDir(fs.tree, p).Err? ==> r == Err(LookupDir(fs.tree, p).error)
      ensures LookupDir(fs.tree, p).Ok? ==> r.Ok?
      ensures r.Ok? ==> forall name :: name in r.value <==> Child(p, name) in fs.tree
      ensures r.Ok? ==> forall i, j :: 0 <= i < j < |r.value| ==> r.value[i] != r.value[j]
    {
      var id :- FindDir(p);
      var left := table[id].children.Keys;
      var names: seq<string> := [];
      while left != {}
        invariant forall name :: name in names || name in left <==> name in table[id].children
        invariant forall name :: !(name in names && name in left)
        invariant forall i, j :: 0 <= i < j < |names| ==> names[i] != names[j]
        decreases left
      {
        var name :| name in left;
        names := names + [name];
        left := left - {name};
      }
      return Ok(names);
    }

    method SetPermissions(p: Path, perm: Perm, now: FileTimeValue) returns (r: Result<(), ErrorCode>)
      requires Valid()
      modifies this
      ensures Valid()
      ensures Lookup(old(fs).tree, p).Err? ==> r == Err(Lookup(old(fs).tree, p).error) && fs == old(fs)
      ensures Lookup(old(fs).tree, p).Ok? ==>
                r == Ok(()) && p in old(fs).tree && fs == PutMeta(old(fs), p, Chmodded(old(fs).tree[p].meta, perm, now))
    {
      LookupFinds(fs, p);
      var id :- Walk(p);
      assert Holds(table, fs.tree, p);
      StoreMeta(p, id, table[id].meta.(perm := perm, changed := now));
      return Ok(());
    }

    // utimensat: both stamps are checked before either is stored.
    method SetFileTimes(p: Path, atime: FileTimeValue, mtime: FileTimeValue, now: FileTimeValue)
      returns (r: Result<(), ErrorCode>)
      requires Valid()
      modifies this
      ensures Valid()
      ensures Lookup(old(fs).tree, p).Err? ==> r == Err(Lookup(old(fs).tree, p).error) && fs == old(fs)
      ensures Lookup(old(fs).tree, p).Ok? ==>
                if StampAllowed(atime) && StampAllowed(mtime) then
                  r == Ok(()) && p in old(fs).tree && fs == PutMeta(old(fs), p, Stamped(old(fs).tree[p].meta, atime, mtime, now))
                else r == Err(InvalidInput) && fs == old(fs)
    {
      LookupFinds(fs, p);
      var id :- Walk(p);
      assert Holds(table, fs.tree, p);
      if !StampAllowed(atime) || !StampAllowed(mtime) {
        return Err(InvalidInput);
      }
      StoreMeta(p, id, Stamped(table[id].meta, atime, mtime, now));
      return Ok(());
    }

    method StoreMeta(ghost p: Path, id: nat, meta: Meta)
      requires Valid() && p in fs.tree && fs.tree[p].id == id && id in table
      modifies this
      ensures Valid() && fs == PutMeta(old(fs), p, meta)
    {
      assert Holds(table, fs.tree, p);
      ghost var node := fs.tree[p].(meta := meta);
      PutRepresents(table, rootId, fs, p, node, table[id].(meta := meta));
      table := table[id := table[id].(meta := meta)];
      fs := PutMeta(fs, p, meta);
    }

    method StoreData(ghost p: Path, id: nat, data: seq<byte>, now: FileTimeValue)
      requires Valid() && p in fs.tree && fs.tree[p].id == id && fs.tree[p].FileNode?
      requires |data| <= MAX_FILE
      modifies this
      ensures Valid() && fs == PutData(old(fs), p, data, now)
    {
      assert Holds(table, fs.tree, p);
      var inode := table[id].(data := data, meta := table[id].meta.(modified := now, changed := now));
      PutRepresents(table, rootId, fs, p, PutData(fs, p, data, now).tree[p], inode);
      table := table[id := inode];
      fs := PutData(fs, p, data, now);
    }

    // Opening what exists: a directory opens for reading only.
    method OpenExisting(p: Path, write: bool) returns (r: Result<OpenFile, ErrorCode>)
      requires Valid()
      ensures Lookup(fs.tree, p).Err? ==> r == Err(Lookup(fs.tree, p).error)
      ensures Lookup(fs.tree, p).Ok? && write && Lookup(fs.tree, p).value.DirNode? ==> r == Err(IsDirectory)
      ensures Lookup(fs.tree, p).Ok? && !(write && Lookup(fs.tree, p).value.DirNode?) ==>
                r.Ok? && fresh(r.value) && r.value.Valid() && r.value.disk == this && r.value.path == p && r.value.pos == 0
    {
      LookupFinds(fs, p);
      var id :- Walk(p);
      assert Holds(table, fs.tree, p);
      if write && table[id].DirInode? {
        return Err(IsDirectory);
      }
      var file := new OpenFile(this, id, p);
      return Ok(file);
    }
  }

  /** A file descriptor: an inode and a cursor. */
  class OpenFile {
    const disk: Disk
    const id: nat
    ghost const path: Path
    var pos: nat

    ghost predicate Valid()
      reads this, disk
    {
      disk.Valid() && path in disk.fs.tree && disk.fs.tree[path].id == id && Holds(disk.table, disk.fs.tree, path)
    }

    constructor (disk: Disk, id: nat, ghost path: Path)
      requires disk.Valid() && path in disk.fs.tree && disk.fs.tree[path].id == id
      ensures Valid() && this.disk == disk && this.path == path && pos == 0
    {
      this.disk, this.id, this.path, pos := disk, id, path, 0;
      assert Holds(disk.table, disk.fs.tree, path);
    }

    method SeekStart(offset: u64) returns (r: Result<(), ErrorCode>)
      requires Valid()
      modifies this
      ensures Valid()
      ensures if offset > MAX_FILE then r == Err(InvalidInput) && pos == old(pos) else r == Ok(()) && pos == offset
    {
      if offset > MAX_FILE {
        return Err(InvalidInput);
      }
      pos := offset;
      return Ok(());
    }

    method SeekEnd()
      requires Valid() && disk.fs.tree[path].FileNode?
      modifies this
      ensures Valid() && pos == |disk.fs.tree[path].data|
    {
      pos := |disk.table[id].data|;
    }

    // One read: some of what is there, nothing only at the end or into an empty buffer.
    method Read(buffer: array<byte>, short: nat) returns (r: Result<nat, ErrorCode>)
      requires Valid()
      modifies this, buffer
      ensures Valid() && disk.fs == old(disk.fs)
      ensures disk.fs.tree[path].DirNode? ==> r == Err(IsDirectory) && buffer[..] == old(buffer[..]) && pos == old(pos)
      ensures disk.fs.tree[path].FileNode? ==>
                var data := disk.fs.tree[path].data;
                var n := ReadCount(|data|, old(pos), buffer.Length, short);
                && r == Ok(n) && n <= buffer.Length && pos == old(pos) + n
                && buffer[..n] == (if n == 0 then [] else data[old(pos)..pos])
                && buffer[n..] == old(buffer[n..])
    {
      if disk.table[id].DirInode? {
        return Err(IsDirectory);
      }
      var data := disk.table[id].data;
      var n := ReadCount(|data|, pos, buffer.Length, short);
      forall i | 0 <= i < n {
        buffer[i] := data[pos + i];
      }
      pos := pos + n;
      return Ok(n);
    }

    // One write: at least one byte of a non-empty buffer, or an error at the size limit.
    method WriteSome(buffer: seq<byte>, now: FileTimeValue) returns (r: Result<nat, ErrorCode>)
      requires Valid() && disk.fs.tree[path].FileNode? && buffer != []
      modifies this, disk
      ensures Valid()
      ensures r.Err? <==> old(pos) >= MAX_FILE
      ensures r.Err? ==> r.error == Unexpected && disk.fs == old(disk.fs) && pos == old(pos)
      ensures r.Ok? ==>
                && 1 <= r.value <= |buffer| && pos == old(pos) + r.value <= MAX_FILE
                && disk.fs == PutSplice(old(disk.fs), path, old(pos), buffer[..r.value], now)
    {
      if pos >= MAX_FILE {
        return Err(Unexpected);
      }
      var n: nat :| 1 <= n <= |buffer| && pos + n <= MAX_FILE;
      SpliceFits(disk.table[id].data, pos, buffer[..n]);
      disk.StoreData(path, id, Splice(disk.table[id].data, pos, buffer[..n]), now);
      pos := pos + n;
      assert Holds(disk.table, disk.fs.tree, path);
      return Ok(n);
    }

    // Writing until everything is written or a write fails.
    method WriteAll(data: seq<byte>, now: FileTimeValue) returns (r: Result<(), ErrorCode>)
      requires Valid() && disk.fs.tree[path].FileNode?
      modifies this, disk
      ensures Valid()
      ensures var n := Room(old(pos), |data|);
              && disk.fs == PutSplice(old(disk.fs), path, old(pos), data[..n], now)
              && r == if n < |data| then Err(Unexpected) else Ok(())
    {
      var done := 0;
      ghost var fs, start := disk.fs, pos;
      hide Represents, Splice, PutSplice;
      while done < |data|
        invariant Valid() && path in old(disk.fs).tree
        invariant done <= |data| && pos == start + done && (done > 0 ==> pos <= MAX_FILE)
        invariant fs.tree[path].FileNode? && disk.fs == PutSplice(fs, path, start, data[..done], now)
      {
        PutSpliceSplice(fs, path, start, data[..done], [], now);
        var step := WriteSome(data[done..], now);
        if step.Err? {
          return Err(step.error);
        }
        PutSpliceSplice(fs, path, start, data[..done], data[done..][..step.value], now);
        assert data[..done] + data[done..][..step.value] == data[..done + step.value];
        done := done + step.value;
      }
      assert data[..|data|] == data;
      return Ok(());
    }

    method SetLen(size: u64, now: FileTimeValue) returns (r: Result<(), ErrorCode>)
      requires Valid() && disk.fs.tree[path].FileNode?
      modifies disk
      ensures Valid()
      ensures if size > MAX_FILE then r == Err(InvalidInput) && disk.fs == old(disk.fs)
              else r == Ok(()) && disk.fs == PutData(old(disk.fs), path, Resized(old(disk.fs).tree[path].data, size), now)
    {
      if size > MAX_FILE {
        return Err(InvalidInput);
      }
      disk.StoreData(path, id, Resized(disk.table[id].data, size), now);
      assert Holds(disk.table, disk.fs.tree, path);
      return Ok(());
    }
  }
}
