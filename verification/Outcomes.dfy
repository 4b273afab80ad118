/** What each request answers and leaves behind, case by case, in plain terms: error codes, attribute
    fields and bytes (crates/netfilum-server/src/server.rs). */
module Outcomes {
  import opened Wrappers
  import opened Protocol
  import opened Paths
  import opened FileTree
  import opened ServerSpec
  import opened ServerInvariant
  import opened RenameLaws
  import opened FileLaws
  import opened Handles
  import opened MountLaws

  // ---- Paths ----

  // The string names `p`: its pieces, hung below the root.
  predicate NamesPath(ex: Export, path: string, p: Path) {
    ex.root <= p && Normalize(path) == Ok(p[|ex.root|..])
  }

  lemma NamedPath(ex: Export, path: string, p: Path)
    requires NamesPath(ex, path, p)
    ensures Joined(ex.root, path) == Ok(p)
  {
    assert ex.root + p[|ex.root|..] == p;
  }

  // Following a path that ends nowhere: a NUL in a name is refused first, then a file on the way,
  // and otherwise something is missing.
  lemma MissingPath(ex: Export, fs: Fs, path: string, p: Path)
    requires Served(ex.root, fs) && NamesPath(ex, path, p)
    ensures p in fs.tree ==> ResolveExisting(ex.root, fs.tree, path) == Ok(p)
    ensures p !in fs.tree && (exists i :: 0 <= i < |p| && '\0' in p[i]) ==>
              ResolveExisting(ex.root, fs.tree, path) == Err(InvalidInput)
    ensures p !in fs.tree && (forall i :: 0 <= i < |p| ==> '\0' !in p[i])
            && (exists k :: 0 <= k < |p| && p[..k] in fs.tree && fs.tree[p[..k]].FileNode?) ==>
              ResolveExisting(ex.root, fs.tree, path) == Err(NotDirectory)
    ensures p !in fs.tree && (forall i :: 0 <= i < |p| ==> '\0' !in p[i])
            && (forall k :: 0 <= k < |p| && p[..k] in fs.tree ==> fs.tree[p[..k]].DirNode?) ==>
              ResolveExisting(ex.root, fs.tree, path) == Err(NotFound)
  {
    NamedPath(ex, path, p);
    LookupFinds(fs, p);
  }

  // A string that is no relative path at all, and a target that is the root itself.
  lemma RefusedPath(ex: Export, fs: Fs, path: string)
    requires Served(ex.root, fs)
    ensures Normalize(path).Err? ==>
              && ResolveExisting(ex.root, fs.tree, path) == Err(InvalidInput)
              && ResolveForNewPath(ex.root, fs.tree, path) == Err(InvalidInput)
    ensures Normalize(path) == Ok([]) ==> ResolveForNewPath(ex.root, fs.tree, path) == Err(PermissionDenied)
  {
    Conservation.OutsideExactlyRoot(ex.root, fs, path);
  }

  // A target below the root is found, whatever is there, exactly when its parent is; the parent is
  // followed like any path.
  lemma TargetPath(ex: Export, fs: Fs, path: string, p: Path)
    requires Served(ex.root, fs) && NamesPath(ex, path, p) && p != ex.root
    ensures Parent(p) in fs.tree ==> ResolveForNewPath(ex.root, fs.tree, path) == Ok(p)
    ensures Parent(p) !in fs.tree ==> ResolveForNewPath(ex.root, fs.tree, path).Err?
                                      && Err(ResolveForNewPath(ex.root, fs.tree, path).error) == Lookup(fs.tree, Parent(p))
  {
    NamedPath(ex, path, p);
    LookupFinds(fs, Parent(p));
    PrefixOfParent(ex.root, p);
  }

  function PathOf(request: Request): Option<string> {
    match request
    case GetVolumeInfo => None
    case Create(_, _, _, _) => None
    case Flush(target) => target
    case _ => Some(request.path)
  }

  // Whatever is asked of a path that does not resolve is refused with that error, and nothing changes.
  lemma UnresolvedIsRefused(ex: Export, fs: Fs, request: Request, env: Env)
    requires Served(ex.root, fs) && PathOf(request).Some?
    requires ResolveExisting(ex.root, fs.tree, PathOf(request).value).Err?
    ensures Dispatch(ex, fs, request, env) == (fs, Err(ResolveExisting(ex.root, fs.tree, PathOf(request).value).error))
  {
    hide Served, WellFormed, ResolveExisting, ResolveForNewPath;
    ServedIsSized(ex.root, fs);
  }

  lemma UnresolvedTargetIsRefused(ex: Export, fs: Fs, path: string, kind: EntryKind, attributes: u32, allocation: u64,
                                  from: string, replace: bool, env: Env)
    requires Served(ex.root, fs) && ResolveForNewPath(ex.root, fs.tree, path).Err?
    ensures var refusal: Reply := Err(ResolveForNewPath(ex.root, fs.tree, path).error);
            && Dispatch(ex, fs, Create(path, kind, attributes, allocation), env) == (fs, refusal)
            && (ResolveExisting(ex.root, fs.tree, from).Ok? ==> Dispatch(ex, fs, Rename(from, path, replace), env) == (fs, refusal))
  {
    hide WellFormed, ResolveExisting, ResolveForNewPath;
    ServedIsSized(ex.root, fs);
  }

  // ---- Attributes ----

  // The time a stamp is told as; one before 1970 is not told.
  predicate ToldAs(told: Option<FileTimeValue>, stored: Option<FileTimeValue>) {
    if stored.Some? && stored.value.secs >= 0 then told == stored else told == None
  }

  // Field by field, what an answer says of a node.
  predicate Describes(a: FileAttr, node: Node) {
    && (a.kind == Directory <==> node.DirNode?)
    && a.size == (if node.DirNode? then 4096 else |node.data|)
    && a.allocatedSize % 4096 == 0 && a.size <= a.allocatedSize < a.size + 4096
    && ToldAs(a.created, node.meta.created)
    && ToldAs(a.accessed, Some(node.meta.accessed))
    && ToldAs(a.modified, Some(node.meta.modified))
    && a.changed == Some(node.meta.changed)
    && (a.readonly <==> node.meta.perm / 0x80 % 2 == 0 && node.meta.perm / 0x10 % 2 == 0 && node.meta.perm / 2 % 2 == 0)
    && a.mode == Some((if node.DirNode? then 0x4000 else 0x8000) + node.meta.perm)
  }

  lemma AttributesDescribe(a: FileAttr, node: Node)
    requires SizeOf(node) <= MAX_FILE
    ensures a == AttrOf(node) <==> Describes(a, node)
  {
  }

  // ---- Reading ----

  lemma StatAnswers(ex: Export, fs: Fs, path: string, p: Path, env: Env)
    requires Served(ex.root, fs) && NamesPath(ex, path, p) && p in fs.tree
    ensures Dispatch(ex, fs, Stat(path), env) == Dispatch(ex, fs, Open(path), env)
    ensures var (fs', r) := Dispatch(ex, fs, Stat(path), env);
            fs' == fs && r.Ok? && r.value.Attr? && Describes(r.value.attr, fs.tree[p])
  {
    MissingPath(ex, fs, path, p);
    LookupFinds(fs, p);
    ServedIsSized(ex.root, fs);
    AttributesDescribe(AttrOf(fs.tree[p]), fs.tree[p]);
  }

  // A listing holds every child under its name with its attributes, and nothing else.
  lemma ReadDirAnswers(ex: Export, fs: Fs, path: string, p: Path, env: Env)
    requires Served(ex.root, fs) && NamesPath(ex, path, p) && p in fs.tree
    ensures Dispatch(ex, fs, ReadDir(path), env).0 == fs
    ensures fs.tree[p].FileNode? ==> Dispatch(ex, fs, ReadDir(path), env).1 == Err(NotDirectory)
    ensures fs.tree[p].DirNode? ==>
              var r := Dispatch(ex, fs, ReadDir(path), env).1;
              && r.Ok? && r.value.DirEntries?
              && (forall i :: 0 <= i < |r.value.entries| ==>
                    var e := r.value.entries[i];
                    p + [e.name] in fs.tree && Describes(e.attr, fs.tree[p + [e.name]]))
              && (forall name :: p + [name] in fs.tree ==> exists i :: 0 <= i < |r.value.entries| && r.value.entries[i].name == name)
  {
    MissingPath(ex, fs, path, p);
    ServedIsSized(ex.root, fs);
    var es := Listing(fs.tree, p);
    ListingIsTheOne(fs.tree, p, es);
    forall i | 0 <= i < |es| ensures p + [es[i].name] in fs.tree && Describes(es[i].attr, fs.tree[p + [es[i].name]]) {
      assert EntryAgrees(fs.tree, p, es[i]);
      AttributesDescribe(es[i].attr, fs.tree[Child(p, es[i].name)]);
    }
    forall name | p + [name] in fs.tree ensures exists i :: 0 <= i < |es| && es[i].name == name {
      assert Child(p, name) in fs.tree;
      assert name in NamesOf(es);
    }
  }

  // Reading: an offset past the largest position is refused even on a directory; otherwise the bytes
  // from the offset on, at least one while there are any, at most as many as asked for.
  lemma ReadAnswers(ex: Export, fs: Fs, path: string, p: Path, offset: u64, length: u32, env: Env)
    requires Served(ex.root, fs) && NamesPath(ex, path, p) && p in fs.tree
    ensures var (fs', r) := Dispatch(ex, fs, Request.Read(path, offset, length), env);
            && fs' == fs
            && (offset >= 0x8000_0000_0000_0000 ==> r == Err(InvalidInput))
            && (offset < 0x8000_0000_0000_0000 && fs.tree[p].DirNode? ==> r == Err(IsDirectory))
            && (offset < 0x8000_0000_0000_0000 && fs.tree[p].FileNode? ==>
                  var b := fs.tree[p].data;
                  && r.Ok? && r.value.Data? && |r.value.bytes| <= length
                  && (r.value.bytes == [] <==> length == 0 || offset >= |b|)
                  && (offset <= |b| ==> r.value.bytes <= b[offset..]))
  {
    MissingPath(ex, fs, path, p);
    hide Served;
  }

  // Any number of bytes from one up to what is there and asked for can come back.
  lemma ReadsAreShort(ex: Export, fs: Fs, path: string, p: Path, offset: u64, length: u32, env: Env, n: nat)
    requires Served(ex.root, fs) && NamesPath(ex, path, p) && p in fs.tree && fs.tree[p].FileNode?
    requires 1 <= n <= length && offset + n <= |fs.tree[p].data|
    ensures Dispatch(ex, fs, Request.Read(path, offset, length), env.(short := n)).1 == Ok(Data(fs.tree[p].data[offset..offset + n]))
  {
    MissingPath(ex, fs, path, p);
    assert |fs.tree[p].data| <= MAX_FILE;
    hide Served;
  }

  // May it be deleted: the kind must match, and a directory be empty.
  lemma CanDeleteAnswers(ex: Export, fs: Fs, path: string, p: Path, env: Env)
    requires Served(ex.root, fs) && NamesPath(ex, path, p) && p in fs.tree
    ensures Dispatch(ex, fs, CanDelete(path, File), env) == (fs, if fs.tree[p].DirNode? then Err(IsDirectory) else Ok(Empty))
    ensures fs.tree[p].FileNode? ==> Dispatch(ex, fs, CanDelete(path, Directory), env) == (fs, Err(NotDirectory))
    ensures fs.tree[p].DirNode? && (exists name :: p + [name] in fs.tree) ==>
              Dispatch(ex, fs, CanDelete(path, Directory), env) == (fs, Err(DirectoryNotEmpty))
    ensures fs.tree[p].DirNode? && (forall name :: p + [name] !in fs.tree) ==>
              Dispatch(ex, fs, CanDelete(path, Directory), env) == (fs, Ok(Empty))
  {
    MissingPath(ex, fs, path, p);
    ChildrenAreNamed(fs.tree, p);
  }

  lemma ChildrenAreNamed(t: Tree, p: Path)
    ensures HasChild(t, p) <==> exists name :: p + [name] in t
  {
    if HasChild(t, p) {
      var q :| q in t && q != [] && Parent(q) == p;
      assert q == p + [Base(q)];
    }
    if name :| p + [name] in t {
      assert Parent(Child(p, name)) == p;
    }
  }

  // A flush succeeds on files, on directories, and on no path at all.
  lemma FlushAnswers(ex: Export, fs: Fs, path: string, p: Path, env: Env)
    requires Served(ex.root, fs) && NamesPath(ex, path, p) && p in fs.tree
    ensures Dispatch(ex, fs, Flush(Some(path)), env) == Dispatch(ex, fs, Flush(None), env) == (fs, Ok(Empty))
  {
    MissingPath(ex, fs, path, p);
  }

  // The capacity figures and the configured label, as long as the root is there.
  lemma VolumeAnswers(ex: Export, fs: Fs, env: Env)
    requires Served(ex.root, fs)
    ensures var (fs', r) := Dispatch(ex, fs, GetVolumeInfo, env);
            && fs' == fs
            && (r.Ok? <==> ex.root in fs.tree)
            && (r.Ok? ==> r.value.VolumeInfo? && r.value.info.totalSize == env.total && r.value.info.freeSize == env.free
                          && r.value.info.volumeLabel == ex.volumeLabel)
            && (r.Err? ==> r.error == NotFound)
  {
    LookupFinds(fs, ex.root);
    if ex.root !in fs.tree {
      assert ex.root[..|ex.root| - 1] == Parent(ex.root) && ex.root[..|ex.root|] == ex.root;
      WalkStopsAtGap(fs, ex.root, |ex.root| - 1);
    }
  }

  // ---- Changing ----

  // How many of `n` bytes fit at a position before the file would pass 2^63 - 1 bytes.
  predicate IsRoom(at: nat, n: nat, k: nat) {
    k <= n && (k > 0 ==> at + k < 0x8000_0000_0000_0000) && (k < n ==> at + k + 1 >= 0x8000_0000_0000_0000)
  }

  // The bytes after a write of `k` bytes of `data` at a position: zeros in a gap.
  predicate Overwritten(b: seq<byte>, b': seq<byte>, at: nat, data: seq<byte>, k: nat)
    requires k <= |data|
  {
    && |b'| == (if k > 0 && at + k > |b| then at + k else |b|)
    && forall i :: 0 <= i < |b'| ==> b'[i] == if at <= i < at + k then data[i - at] else if i < |b| then b[i] else 0
  }

  // Writing: what fits is written; success says how many bytes were sent, modulo 2^32, and describes
  // the file; a write that does not fit is an unexpected error that leaves what did.
  lemma WriteAnswers(ex: Export, fs: Fs, path: string, p: Path, offset: u64, data: seq<byte>, eof: bool, env: Env, k: nat)
    requires Served(ex.root, fs) && NamesPath(ex, path, p) && p in fs.tree
    ensures fs.tree[p].DirNode? ==> Dispatch(ex, fs, Request.Write(path, offset, data, eof), env) == (fs, Err(IsDirectory))
    ensures fs.tree[p].FileNode? && !eof && offset >= 0x8000_0000_0000_0000 ==>
              Dispatch(ex, fs, Request.Write(path, offset, data, eof), env) == (fs, Err(InvalidInput))
    ensures fs.tree[p].FileNode? && (eof || offset < 0x8000_0000_0000_0000) ==>
              var (fs', r) := Dispatch(ex, fs, Request.Write(path, offset, data, eof), env);
              var at := if eof then |fs.tree[p].data| else offset;
              IsRoom(at, |data|, k) ==>
                && SameElsewhere(fs.tree, fs'.tree, p) && fs'.tree[p].FileNode?
                && Overwritten(fs.tree[p].data, fs'.tree[p].data, at, data, k)
                && (k < |data| ==> r == Err(Unexpected))
                && (k == |data| ==> r.Ok? && r.value.WriteResult? && r.value.written == |data| % 0x1_0000_0000
                                    && Describes(r.value.newAttr, fs'.tree[p]))
  {
    hide Served, WellFormed, Splice, AttrOf, Describes, NamesPath, Lookup, ResolveExisting;
    MissingPath(ex, fs, path, p);
    ServedIsSized(ex.root, fs);
    if fs.tree[p].FileNode? && (eof || offset <= MAX_FILE) {
      var at := if eof then |fs.tree[p].data| else offset;
      if IsRoom(at, |data|, k) {
        assert k == Room(at, |data|);
        SpliceAt(fs.tree[p].data, at, data[..k]);
        SpliceFits(fs.tree[p].data, at, data[..k]);
        var node := DoWrite(ex.root, fs, path, offset, data, eof, env).0.tree[p];
        AttributesDescribe(AttrOf(node), node);
      }
    }
  }

  // There is always such a number.
  lemma RoomIsRoom(at: nat, n: nat)
    requires at < 0x8000_0000_0000_0000
    ensures IsRoom(at, n, Room(at, n))
  {
  }

  // Resizing: cut, or filled up with zeros; an allocation size only asks for the attributes.
  lemma SetLenAnswers(ex: Export, fs: Fs, path: string, p: Path, size: u64, env: Env)
    requires Served(ex.root, fs) && NamesPath(ex, path, p) && p in fs.tree
    ensures var (fs', r) := Dispatch(ex, fs, SetLen(path, size, true), env);
            fs' == fs && r.Ok? && r.value.Attr? && Describes(r.value.attr, fs.tree[p])
    ensures fs.tree[p].DirNode? ==> Dispatch(ex, fs, SetLen(path, size, false), env) == (fs, Err(IsDirectory))
    ensures fs.tree[p].FileNode? && size >= 0x8000_0000_0000_0000 ==>
              Dispatch(ex, fs, SetLen(path, size, false), env) == (fs, Err(InvalidInput))
    ensures fs.tree[p].FileNode? && size < 0x8000_0000_0000_0000 ==>
              var (fs', r) := Dispatch(ex, fs, SetLen(path, size, false), env);
              && SameElsewhere(fs.tree, fs'.tree, p) && fs'.tree[p].FileNode? && |fs'.tree[p].data| == size
              && (forall i :: 0 <= i < size ==> fs'.tree[p].data[i] == if i < |fs.tree[p].data| then fs.tree[p].data[i] else 0)
              && r.Ok? && r.value.Attr? && Describes(r.value.attr, fs'.tree[p])
  {
    assert WellFormed(fs);
    hide Served, WellFormed, AttrOf, Describes, NamesPath, ResolveExisting;
    MissingPath(ex, fs, path, p);
    ServedIsSized(ex.root, fs);
    LookupFinds(fs, p);
    AttributesDescribe(AttrOf(fs.tree[p]), fs.tree[p]);
    if fs.tree[p].FileNode? && size <= MAX_FILE {
      var node := DoSetLen(ex.root, fs, path, size, false, env).0.tree[p];
      AttributesDescribe(AttrOf(node), node);
    }
  }

  // Removals take exactly the one node.
  lemma RemovalAnswers(ex: Export, fs: Fs, path: string, p: Path, env: Env)
    requires Served(ex.root, fs) && NamesPath(ex, path, p) && p in fs.tree
    ensures Dispatch(ex, fs, RemoveFile(path), env) ==
            if fs.tree[p].DirNode? then (fs, Err(IsDirectory)) else (Fs(fs.tree - {p}, fs.next), Ok(Empty))
    ensures fs.tree[p].FileNode? ==> Dispatch(ex, fs, RemoveDir(path), env) == (fs, Err(NotDirectory))
    ensures fs.tree[p].DirNode? && (exists name :: p + [name] in fs.tree) ==>
              Dispatch(ex, fs, RemoveDir(path), env) == (fs, Err(DirectoryNotEmpty))
    ensures fs.tree[p].DirNode? && (forall name :: p + [name] !in fs.tree) ==>
              Dispatch(ex, fs, RemoveDir(path), env) == (Fs(fs.tree - {p}, fs.next), Ok(Empty))
  {
    MissingPath(ex, fs, path, p);
    LookupFinds(fs, p);
    ChildrenAreNamed(fs.tree, p);
    ChildNeedsDir(fs, p);
    if !HasChild(fs.tree, p) {
      LeafWithout(fs, p);
    }
    hide WellFormed, NamesPath, HasChild, Without;
  }

  // Creating: one new empty node under a fresh identity, every stamp the present.
  lemma CreateAnswers(ex: Export, fs: Fs, path: string, p: Path, kind: EntryKind, attributes: u32, allocation: u64, env: Env)
    requires Served(ex.root, fs) && NamesPath(ex, path, p) && p != ex.root && Parent(p) in fs.tree
    ensures p in fs.tree ==> Dispatch(ex, fs, Create(path, kind, attributes, allocation), env) == (fs, Err(AlreadyExists))
    ensures p !in fs.tree && (exists i :: 0 <= i < |p| && '\0' in p[i]) ==>
              Dispatch(ex, fs, Create(path, kind, attributes, allocation), env) == (fs, Err(InvalidInput))
    ensures p !in fs.tree && (forall i :: 0 <= i < |p| ==> '\0' !in p[i]) && fs.tree[Parent(p)].FileNode? ==>
              Dispatch(ex, fs, Create(path, kind, attributes, allocation), env) == (fs, Err(NotDirectory))
    ensures p !in fs.tree && (forall i :: 0 <= i < |p| ==> '\0' !in p[i]) && fs.tree[Parent(p)].DirNode? ==>
              var (fs', r) := Dispatch(ex, fs, Create(path, kind, attributes, allocation), env);
              var meta := Meta(env.perm, Some(env.now), env.now, env.now, env.now);
              && fs' == Fs(fs.tree[p := if kind == File then FileNode(fs.next, [], meta) else DirNode(fs.next, meta)], fs.next + 1)
              && r.Ok? && r.value.Attr? && Describes(r.value.attr, fs'.tree[p])
  {
    TargetPath(ex, fs, path, p);
    ServedIsSized(ex.root, fs);
    LookupFinds(fs, Parent(p));
    if p in fs.tree {
      assert Hangs(fs.tree, p);
      NamesArePlain(fs, p);
    } else if !HasNul(p) {
      var node := NewNode(kind, fs.next, env);
      AttributesDescribe(AttrOf(node), node);
    }
    hide WellFormed, NamesPath, AttrOf, Describes;
  }

  lemma RenameRuns(ex: Export, fs: Fs, path: string, newPath: string, replace: bool, from: Path, to: Path, env: Env)
    requires Served(ex.root, fs) && NamesPath(ex, path, from) && from in fs.tree
    requires NamesPath(ex, newPath, to) && to != ex.root && Parent(to) in fs.tree
    ensures ResolveExisting(ex.root, fs.tree, path) == Ok(from) && ResolveForNewPath(ex.root, fs.tree, newPath) == Ok(to)
    ensures to != [] && Dispatch(ex, fs, Rename(path, newPath, replace), env) == DoRename(ex.root, fs, path, newPath, replace)
  {
    hide DoRename, NamesPath, ResolveExisting, ResolveForNewPath;
    MissingPath(ex, fs, path, from);
    TargetPath(ex, fs, newPath, to);
    ResolvedNew(ex.root, fs, newPath);
  }

  // Renaming onto a target that is there: refused unless it may be replaced, and then the target goes
  // first, even when the rename itself cannot follow.
  lemma RenameOntoAnswers(ex: Export, fs: Fs, path: string, newPath: string, replace: bool, from: Path, to: Path, env: Env)
    requires Served(ex.root, fs) && NamesPath(ex, path, from) && from in fs.tree
    requires NamesPath(ex, newPath, to) && to != ex.root && to in fs.tree
    ensures !replace ==> Dispatch(ex, fs, Rename(path, newPath, replace), env) == (fs, Err(AlreadyExists))
    ensures replace && to <= from ==>
              var (fs', r) := Dispatch(ex, fs, Rename(path, newPath, replace), env);
              r == Err(NotFound) && fs'.tree == Without(fs.tree, to)
    ensures replace && from < to ==>
              var (fs', r) := Dispatch(ex, fs, Rename(path, newPath, replace), env);
              r == Err(InvalidInput) && fs'.tree == Without(fs.tree, to)
    ensures replace && !(from <= to) && !(to <= from) ==>
              var (fs', r) := Dispatch(ex, fs, Rename(path, newPath, replace), env);
              r == Ok(Empty) && MovesSubtree(fs.tree, fs'.tree, from, to)
  {
    assert WellFormed(fs) && Hangs(fs.tree, to);
    hide Served, WellFormed, Dispatch, DoRename, MovesSubtree, NamesPath, ResolveExisting, ResolveForNewPath, Without, HasNul;
    RenameRuns(ex, fs, path, newPath, replace, from, to, env);
    RenameOutcome(ex.root, fs, path, newPath, replace);
    NamesArePlain(fs, to);
  }

  // Renaming onto a free target: each refusal with its code, in the order they are met.
  lemma RenameAnswers(ex: Export, fs: Fs, path: string, newPath: string, replace: bool, from: Path, to: Path, env: Env)
    requires Served(ex.root, fs) && NamesPath(ex, path, from) && from in fs.tree
    requires NamesPath(ex, newPath, to) && to != ex.root && to !in fs.tree && Parent(to) in fs.tree
    ensures HasNul(to) ==>
              Dispatch(ex, fs, Rename(path, newPath, replace), env) == (fs, Err(InvalidInput))
    ensures !HasNul(to) && fs.tree[Parent(to)].FileNode? ==>
              Dispatch(ex, fs, Rename(path, newPath, replace), env) == (fs, Err(NotDirectory))
    ensures !HasNul(to) && fs.tree[Parent(to)].DirNode? && from <= to ==>
              Dispatch(ex, fs, Rename(path, newPath, replace), env) == (fs, Err(InvalidInput))
    ensures !HasNul(to) && fs.tree[Parent(to)].DirNode? && !(from <= to) ==>
              var (fs', r) := Dispatch(ex, fs, Rename(path, newPath, replace), env);
              r == Ok(Empty) && MovesSubtree(fs.tree, fs'.tree, from, to)
  {
    assert WellFormed(fs);
    hide Served, WellFormed, Dispatch, DoRename, MovesSubtree, NamesPath, ResolveExisting, ResolveForNewPath, Without, HasNul;
    RenameRuns(ex, fs, path, newPath, replace, from, to, env);
    RenameOutcome(ex.root, fs, path, newPath, replace);
    if to <= from {
      AncestorPresent(fs, to, from);
    }
  }

  // ---- Attributes set ----

  // The stamp asked for, with the server's two special counts of nanoseconds.
  predicate StampTook(asked: FileTimeValue, before: FileTimeValue, after: FileTimeValue, now: FileTimeValue) {
    && (asked.nanos < 1_000_000_000 ==> after == asked)
    && (asked.nanos == 0x3fff_ffff ==> after == now)
    && (asked.nanos == 0x3fff_fffe ==> after == before)
  }

  predicate Refusable(asked: Option<FileTimeValue>) {
    asked.Some? && asked.value.secs >= 0 && asked.value.nanos >= 1_000_000_000
    && asked.value.nanos != 0x3fff_ffff && asked.value.nanos != 0x3fff_fffe
  }

  // A stored stamp's nanoseconds are in order, as every run keeps them.
  predicate InOrder(stored: FileTimeValue) {
    stored.nanos < 1_000_000_000
  }

  // One time: as asked when that is from 1970 on; else as stored, or the present if stored before 1970.
  predicate TimeTook(asked: Option<FileTimeValue>, before: FileTimeValue, after: FileTimeValue, now: FileTimeValue) {
    if asked.Some? && asked.value.secs >= 0 then StampTook(asked.value, before, after, now)
    else if before.secs >= 0 then after == before
    else after == now
  }

  lemma NextTook(asked: Option<FileTimeValue>, stored: FileTimeValue, now: FileTimeValue)
    requires InOrder(stored) && InOrder(now)
    ensures var t := NextTime(asked, CurrentTime(stored, now));
            (StampAllowed(t) <==> !Refusable(asked)) && TimeTook(asked, stored, Stamp(stored, t, now), now)
  {
  }

  // Asked to leave both stamps as they are.
  predicate OmitsBoth(update: BasicInfoUpdate) {
    && update.lastAccessTime.Some? && update.lastAccessTime.value.secs >= 0 && update.lastAccessTime.value.nanos == 0x3fff_fffe
    && update.lastWriteTime.Some? && update.lastWriteTime.value.secs >= 0 && update.lastWriteTime.value.nanos == 0x3fff_fffe
  }

  // What setting times made of a node's stamps, `bits` saying whether the permission bits were set too.
  predicate TimesSet(update: BasicInfoUpdate, bits: bool, before: Meta, after: Meta, r: Reply, now: FileTimeValue) {
    var asked := update.lastAccessTime.Some? || update.lastWriteTime.Some?;
    && after.created == before.created
    && (r.Err? <==> Refusable(update.lastAccessTime) || Refusable(update.lastWriteTime))
    && (r.Err? ==> r.error == InvalidInput)
    && (r.Err? || !asked ==> after.accessed == before.accessed && after.modified == before.modified)
    && (r.Ok? && asked ==>
          && TimeTook(update.lastAccessTime, before.accessed, after.accessed, now)
          && TimeTook(update.lastWriteTime, before.modified, after.modified, now))
    && after.changed == (if bits || (r.Ok? && asked && !OmitsBoth(update)) then now else before.changed)
  }

  lemma TimesAnswer(fs: Fs, p: Path, update: BasicInfoUpdate, env: Env)
    requires Sized(fs.tree) && p in fs.tree && !HasNul(p)
    requires InOrder(fs.tree[p].meta.accessed) && InOrder(fs.tree[p].meta.modified) && InOrder(env.now)
    ensures var (fs', r) := UpdateTimes(fs, p, update, env);
            && SameElsewhere(fs.tree, fs'.tree, p)
            && TimesSet(update, false, fs.tree[p].meta, fs'.tree[p].meta, r, env.now)
            && (r.Ok? ==> r.value.Attr? && Describes(r.value.attr, fs'.tree[p]))
  {
    hide AttrOf, Describes, CurrentTime, Refusable, TimeTook;
    NextTook(update.lastAccessTime, fs.tree[p].meta.accessed, env.now);
    NextTook(update.lastWriteTime, fs.tree[p].meta.modified, env.now);
    CurrentInOrder(fs.tree[p].meta.accessed, env.now);
    CurrentInOrder(fs.tree[p].meta.modified, env.now);
    var node := UpdateTimes(fs, p, update, env).0.tree[p];
    AttributesDescribe(AttrOf(node), node);
  }

  lemma CurrentInOrder(stored: FileTimeValue, now: FileTimeValue)
    requires InOrder(stored) && InOrder(now)
    ensures InOrder(CurrentTime(stored, now))
  {
  }

  // Setting times: a count of nanoseconds no stamp can have is refused, and then neither time moves;
  // a time from 1970 on is stored; a time not asked for, or before 1970, stays, except that a stored
  // one before 1970 becomes the present when the other is asked for. The change stamp is the present
  // when anything was set.
  lemma SetBasicInfoAnswers(ex: Export, fs: Fs, path: string, p: Path, update: BasicInfoUpdate, env: Env)
    requires Served(ex.root, fs) && NamesPath(ex, path, p) && p in fs.tree
    requires InOrder(fs.tree[p].meta.accessed) && InOrder(fs.tree[p].meta.modified) && InOrder(env.now)
    ensures var (fs', r) := Dispatch(ex, fs, SetBasicInfo(path, update), env);
            && SameElsewhere(fs.tree, fs'.tree, p)
            && TimesSet(update, update.readonly.Some?, fs.tree[p].meta, fs'.tree[p].meta, r, env.now)
            && (r.Ok? ==> r.value.Attr? && Describes(r.value.attr, fs'.tree[p]))
  {
    assert WellFormed(fs);
    hide Served, WellFormed, Dispatch, AttrOf, Describes, AfterReadonly, UpdateTimes, TimesSet, SameElsewhere, Sized, PutMeta;
    ServedIsSized(ex.root, fs);
    NamesArePlain(fs, p);
    SetBasicInfoRuns(ex, fs, path, p, update, env);
    var before := fs.tree[p].meta;
    var first := AfterReadonly(before, update.readonly, env.now);
    BitsFirst(before, update, env.now);
    PutThenChanged(fs, p, first);
    TimesAnswer(PutMeta(fs, p, first), p, update, env);
    var (fs', r) := UpdateTimes(PutMeta(fs, p, first), p, update, env);
    BitsThenTimes(update, before, first, fs'.tree[p].meta, r, env.now);
  }

  lemma PutThenChanged(fs: Fs, p: Path, meta: Meta)
    requires Sized(fs.tree) && p in fs.tree
    ensures var t := PutMeta(fs, p, meta).tree;
            && Sized(t) && p in t && t[p].meta == meta
            && forall t' {:trigger SameElsewhere(t, t', p)} :: SameElsewhere(t, t', p) ==> p in t' && SameElsewhere(fs.tree, t', p)
  {
  }

  lemma BitsFirst(before: Meta, update: BasicInfoUpdate, now: FileTimeValue)
    ensures var first := AfterReadonly(before, update.readonly, now);
            && first == before.(perm := first.perm, changed := first.changed)
            && first.changed == if update.readonly.Some? then now else before.changed
  {
  }

  lemma BitsThenTimes(update: BasicInfoUpdate, before: Meta, first: Meta, after: Meta, r: Reply, now: FileTimeValue)
    requires first == before.(perm := first.perm, changed := first.changed)
    requires first.changed == if update.readonly.Some? then now else before.changed
    requires TimesSet(update, false, first, after, r, now)
    ensures TimesSet(update, update.readonly.Some?, before, after, r, now)
  {
    hide Refusable, TimeTook, OmitsBoth;
  }

  lemma SetBasicInfoRuns(ex: Export, fs: Fs, path: string, p: Path, update: BasicInfoUpdate, env: Env)
    requires Served(ex.root, fs) && Sized(fs.tree) && NamesPath(ex, path, p) && p in fs.tree
    ensures Dispatch(ex, fs, SetBasicInfo(path, update), env)
            == UpdateTimes(PutMeta(fs, p, AfterReadonly(fs.tree[p].meta, update.readonly, env.now)), p, update, env)
  {
    hide NamesPath, ResolveExisting, UpdateTimes, AfterReadonly;
    MissingPath(ex, fs, path, p);
  }
}
