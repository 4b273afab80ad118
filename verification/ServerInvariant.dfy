/** Every request leaves the served disk well formed and its exported names clean. */
module ServerInvariant {
  import opened Protocol
  import opened Paths
  import opened FileTree
  import opened ServerSpec

  lemma ServedIsSized(root: Path, fs: Fs)
    requires Served(root, fs)
    ensures Sized(fs.tree)
  {
    forall p | p in fs.tree ensures SizeOf(fs.tree[p]) <= MAX_FILE {
      if fs.tree[p].FileNode? {
        assert |fs.tree[p].data| <= MAX_FILE;
      }
    }
  }

  // What resolving gives: a present path inside the root, by way of an accepted string.
  lemma ResolvedExists(root: Path, fs: Fs, path: string)
    requires Served(root, fs)
    ensures var r := ResolveExisting(root, fs.tree, path);
            r.Ok? <==> Normalize(path).Ok? && root + Normalize(path).value in fs.tree
    ensures var r := ResolveExisting(root, fs.tree, path);
            r.Ok? ==> r.value == root + Normalize(path).value && r.value in fs.tree && root <= r.value && r.value != []
  {
    if Normalize(path).Ok? {
      LookupFinds(fs, root + Normalize(path).value);
    }
  }

  // A target resolves when its parent exists inside the root, so it is strictly inside itself.
  lemma ResolvedNew(root: Path, fs: Fs, path: string)
    requires Served(root, fs)
    ensures var r := ResolveForNewPath(root, fs.tree, path);
            r.Ok? ==> Normalize(path).Ok? && Normalize(path).value != [] && r.value == root + Normalize(path).value
    ensures var r := ResolveForNewPath(root, fs.tree, path);
            r.Ok? ==> root < r.value && Parent(r.value) in fs.tree && CleanName(Base(r.value)) && CleanPath(r.value[|root|..])
    ensures var r := ResolveForNewPath(root, fs.tree, path);
            r.Ok? ==> (PlainName(Base(r.value)) || HasNul(r.value))
  {
    var r := ResolveForNewPath(root, fs.tree, path);
    if r.Ok? {
      NormalizeAccepts(path);
      LookupFinds(fs, Parent(r.value));
      var rel := Normalize(path).value;
      assert r.value[|root|..] == rel;
      assert rel == [] ==> root + rel == root;
      if rel != [] {
        assert Base(r.value) == rel[|rel| - 1];
        if '\0' in Base(r.value) {
          assert HasNul(r.value);
        }
      }
    }
  }

  lemma PutKeepsServed(root: Path, fs: Fs, p: Path, node: Node)
    requires Served(root, fs) && p in fs.tree
    requires node.id == fs.tree[p].id && node.DirNode? == fs.tree[p].DirNode?
    requires node.FileNode? ==> |node.data| <= MAX_FILE
    ensures Served(root, fs.(tree := fs.tree[p := node]))
  {
    PutKeepsForm(fs, p, node);
  }

  lemma WithoutKeepsServed(root: Path, fs: Fs, p: Path)
    requires Served(root, fs) && root <= p
    ensures Served(root, fs.(tree := Without(fs.tree, p)))
  {
    WithoutKeepsForm(fs, p);
    assert !(p <= Parent(root));
  }

  lemma CreateKeepsServed(root: Path, fs: Fs, path: string, kind: EntryKind, env: Env)
    requires Served(root, fs) && ResolveForNewPath(root, fs.tree, path).Ok?
    ensures Served(root, OsCreate(fs, ResolveForNewPath(root, fs.tree, path).value, kind, env).0)
  {
    ResolvedNew(root, fs, path);
    var p := ResolveForNewPath(root, fs.tree, path).value;
    var (fs', made) := OsCreate(fs, p, kind, env);
    if made.Ok? {
      LookupFinds(fs, Parent(p));
      AddKeepsForm(fs, p, kind, env);
      assert Parent(root) != p;
    }
  }

  lemma MovedStaysClean(root: Path, t: Tree, from: Path, to: Path, q: Path)
    requires root <= from && root <= to && root <= q
    requires !(from <= to) && forall q :: q in t ==> !(to <= q)
    requires forall p :: p in t && root <= p ==> CleanPath(p[|root|..])
    requires CleanPath(to[|root|..])
    requires q in Moved(t, from, to)
    ensures CleanPath(q[|root|..])
  {
    MovedMeaning(t, from, to, q);
    if to <= q {
      var o := Origin(from, to, q);
      assert root <= o;
      forall i | 0 <= i < |q| - |root| ensures CleanName(q[|root|..][i]) {
        if i < |to| - |root| {
          assert q[|root|..][i] == to[|root|..][i];
        } else {
          assert q[|root|..][i] == o[|root|..][i + |from| - |to|];
        }
      }
    }
  }

  lemma RenameKeepsServed(root: Path, fs: Fs, from: Path, to: Path)
    requires Served(root, fs) && root <= from && root < to
    requires forall q :: q in fs.tree ==> !(to <= q)
    requires CleanPath(to[|root|..]) && (PlainName(Base(to)) || HasNul(to))
    ensures Served(root, OsRename(fs, from, to).0)
  {
    RenameKeepsForm(fs, from, to);
    var (fs', done) := OsRename(fs, from, to);
    if done.Ok? {
      forall q | q in fs'.tree && root <= q ensures CleanPath(q[|root|..]) {
        MovedStaysClean(root, fs.tree, from, to, q);
      }
      MovedMeaning(fs.tree, from, to, Parent(root));
      assert !(from <= Parent(root)) && !(to <= Parent(root));
    }
  }

  lemma DoRenameKeepsServed(root: Path, fs: Fs, path: string, newPath: string, replaceIfExists: bool)
    requires Served(root, fs)
    ensures Served(root, DoRename(root, fs, path, newPath, replaceIfExists).0)
  {
    var from := ResolveExisting(root, fs.tree, path);
    var to := ResolveForNewPath(root, fs.tree, newPath);
    if from.Ok? && to.Ok? {
      ResolvedExists(root, fs, path);
      ResolvedNew(root, fs, newPath);
      var cleared := Cleared(fs, to.value);
      ClearedIsFree(fs, to.value);
      if to.value in fs.tree {
        WithoutKeepsServed(root, fs, to.value);
      }
      RenameKeepsServed(root, cleared, from.value, to.value);
    }
  }

  lemma DoWriteKeepsServed(root: Path, fs: Fs, path: string, offset: u64, data: seq<byte>, writeToEof: bool, env: Env)
    requires Served(root, fs) && Sized(fs.tree)
    ensures Served(root, DoWrite(root, fs, path, offset, data, writeToEof, env).0)
  {
    ResolvedExists(root, fs, path);
    var r := ResolveExisting(root, fs.tree, path);
    if r.Ok? && fs.tree[r.value].FileNode? {
      var node := fs.tree[r.value];
      var at := if writeToEof then |node.data| else offset;
      var data' := Splice(node.data, at, data[..Room(at, |data|)]);
      SpliceFits(node.data, at, data[..Room(at, |data|)]);
      PutKeepsServed(root, fs, r.value, PutData(fs, r.value, data', env.now).tree[r.value]);
    }
  }

  lemma PutMetaKeepsServed(root: Path, fs: Fs, p: Path, meta: Meta)
    requires Served(root, fs) && p in fs.tree
    ensures Served(root, PutMeta(fs, p, meta))
  {
    PutKeepsServed(root, fs, p, fs.tree[p].(meta := meta));
  }

  lemma DoSetBasicInfoKeepsServed(root: Path, fs: Fs, path: string, update: BasicInfoUpdate, env: Env)
    requires Served(root, fs) && Sized(fs.tree)
    ensures Served(root, DoSetBasicInfo(root, fs, path, update, env).0)
  {
    ResolvedExists(root, fs, path);
    var r := ResolveExisting(root, fs.tree, path);
    if r.Ok? {
      var fs1 := PutMeta(fs, r.value, AfterReadonly(fs.tree[r.value].meta, update.readonly, env.now));
      PutMetaKeepsServed(root, fs, r.value, AfterReadonly(fs.tree[r.value].meta, update.readonly, env.now));
      forall meta: Meta ensures Served(root, PutMeta(fs1, r.value, meta)) {
        PutMetaKeepsServed(root, fs1, r.value, meta);
      }
    }
  }

  lemma DoRemoveKeepsServed(root: Path, fs: Fs, path: string)
    requires Served(root, fs)
    ensures Served(root, DoRemoveFile(root, fs, path).0)
    ensures Served(root, DoRemoveDir(root, fs, path).0)
  {
    ResolvedExists(root, fs, path);
    var r := ResolveExisting(root, fs.tree, path);
    if r.Ok? {
      WithoutKeepsServed(root, fs, r.value);
    }
  }

  lemma DoSetLenKeepsServed(root: Path, fs: Fs, path: string, size: u64, allocation: bool, env: Env)
    requires Served(root, fs) && Sized(fs.tree)
    ensures Served(root, DoSetLen(root, fs, path, size, allocation, env).0)
  {
    ResolvedExists(root, fs, path);
    var r := ResolveExisting(root, fs.tree, path);
    if r.Ok? && fs.tree[r.value].FileNode? && !allocation && size <= MAX_FILE {
      var node := fs.tree[r.value];
      PutKeepsServed(root, fs, r.value, PutData(fs, r.value, Resized(node.data, size), env.now).tree[r.value]);
    }
  }

  lemma DoCreateKeepsServed(root: Path, fs: Fs, path: string, kind: EntryKind, env: Env)
    requires Served(root, fs) && Sized(fs.tree)
    ensures Served(root, DoCreate(root, fs, path, kind, env).0)
  {
    if ResolveForNewPath(root, fs.tree, path).Ok? {
      CreateKeepsServed(root, fs, path, kind, env);
    }
  }

  lemma DispatchKeepsServed(ex: Export, fs: Fs, request: Request, env: Env)
    requires Served(ex.root, fs)
    ensures Served(ex.root, Dispatch(ex, fs, request, env).0)
  {
    hide Served, WellFormed, Sized;
    hide DoStat, DoCreate, DoReadDir, DoRead, DoWrite, DoCanDelete, DoRemoveFile, DoRemoveDir, DoRename, DoSetLen, DoFlush, DoSetBasicInfo, DoGetVolumeInfo;
    ServedIsSized(ex.root, fs);
    match request {
      case Create(path, kind, _, _) => DoCreateKeepsServed(ex.root, fs, path, kind, env);
      case Write(path, offset, data, eof) => DoWriteKeepsServed(ex.root, fs, path, offset, data, eof, env);
      case RemoveFile(path) => DoRemoveKeepsServed(ex.root, fs, path);
      case RemoveDir(path) => DoRemoveKeepsServed(ex.root, fs, path);
      case Rename(path, newPath, replace) => DoRenameKeepsServed(ex.root, fs, path, newPath, replace);
      case SetLen(path, size, allocation) => DoSetLenKeepsServed(ex.root, fs, path, size, allocation, env);
      case SetBasicInfo(path, update) => DoSetBasicInfoKeepsServed(ex.root, fs, path, update, env);
      case _ =>
    }
  }
}
