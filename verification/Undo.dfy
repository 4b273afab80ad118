/** What undoes a request, and what asking again does: a client whose answer was lost cannot know
    whether the request was run (crates/netfilum-server/src/server.rs). */
module Undo {
  import opened Wrappers
  import opened Protocol
  import opened Paths
  import opened FileTree
  import opened ServerSpec
  import opened ServerInvariant
  import opened RenameLaws

  // ---- Resolving after the fact ----

  // Where a new path resolves, and something is now there, the same string finds it.
  lemma NewIsFound(root: Path, fs: Fs, fs': Fs, path: string)
    requires Served(root, fs) && Served(root, fs')
    requires ResolveForNewPath(root, fs.tree, path).Ok? && ResolveForNewPath(root, fs.tree, path).value in fs'.tree
    ensures ResolveExisting(root, fs'.tree, path) == ResolveForNewPath(root, fs.tree, path)
  {
    ResolvedNew(root, fs, path);
    ResolvedExists(root, fs', path);
  }

  // A path strictly inside the root whose parent is there resolves as a new path.
  lemma FoundIsNew(root: Path, fs: Fs, fs': Fs, path: string)
    requires Served(root, fs) && Served(root, fs')
    requires ResolveExisting(root, fs.tree, path).Ok? && root < ResolveExisting(root, fs.tree, path).value
    requires Parent(ResolveExisting(root, fs.tree, path).value) in fs'.tree
    ensures ResolveForNewPath(root, fs'.tree, path) == ResolveExisting(root, fs.tree, path)
  {
    ResolvedExists(root, fs, path);
    var p := ResolveExisting(root, fs.tree, path).value;
    LookupFinds(fs', Parent(p));
    PrefixOfParent(root, p);
  }

  lemma GoneIsNotFound(root: Path, fs: Fs, fs': Fs, path: string)
    requires Served(root, fs) && Served(root, fs')
    requires ResolveExisting(root, fs.tree, path).Ok? && ResolveExisting(root, fs.tree, path).value !in fs'.tree
    requires Parent(ResolveExisting(root, fs.tree, path).value) in fs'.tree
    requires fs'.tree[Parent(ResolveExisting(root, fs.tree, path).value)].DirNode?
    ensures ResolveExisting(root, fs'.tree, path) == Err(NotFound)
  {
    ResolvedExists(root, fs, path);
    var p := ResolveExisting(root, fs.tree, path).value;
    NamesArePlain(fs, p);
    assert p[..|p| - 1] == Parent(p) && p[..|p|] == p;
    WalkStopsAtGap(fs', p, |p| - 1);
  }

  // ---- Creating ----

  // A create succeeds exactly on a free path under a directory, adds exactly one new, empty node
  // there, and answers what a stat would; refused, it changes nothing.
  lemma CreateOutcome(root: Path, fs: Fs, path: string, kind: EntryKind, env: Env)
    requires Served(root, fs) && Sized(fs.tree) && ResolveForNewPath(root, fs.tree, path).Ok?
    ensures var p := ResolveForNewPath(root, fs.tree, path).value;
            var (fs', r) := DoCreate(root, fs, path, kind, env);
            && p != [] && Parent(p) in fs.tree
            && (r.Ok? <==> p !in fs.tree && fs.tree[Parent(p)].DirNode? && !HasNul(p))
            && (r.Ok? ==> fs' == Fs(fs.tree[p := NewNode(kind, fs.next, env)], fs.next + 1))
            && (r.Ok? ==> Served(root, fs') && Sized(fs'.tree) && r == DoStat(root, fs'.tree, path))
            && (r.Err? ==> fs' == fs)
            && (p in fs.tree ==> r == Err(AlreadyExists))
  {
    ResolvedNew(root, fs, path);
    var p := ResolveForNewPath(root, fs.tree, path).value;
    var (fs', r) := DoCreate(root, fs, path, kind, env);
    LookupFinds(fs, Parent(p));
    if p in fs.tree {
      assert Hangs(fs.tree, p);
      NamesArePlain(fs, p);
    }
    DoCreateKeepsServed(root, fs, path, kind, env);
    ServedIsSized(root, fs');
    if p !in fs.tree && fs.tree[Parent(p)].DirNode? && !HasNul(p) {
      NewIsFound(root, fs, fs', path);
      LookupFinds(fs', p);
    }
  }

  lemma CreateResolved(root: Path, fs: Fs, path: string, kind: EntryKind, env: Env)
    requires Served(root, fs) && Sized(fs.tree) && DoCreate(root, fs, path, kind, env).1.Ok?
    ensures ResolveForNewPath(root, fs.tree, path).Ok?
  {
  }

  // Removing what was just created gives the tree back exactly.
  lemma CreateUndone(root: Path, fs: Fs, path: string, kind: EntryKind, env: Env)
    requires Served(root, fs) && Sized(fs.tree) && DoCreate(root, fs, path, kind, env).1.Ok?
    ensures var fs' := DoCreate(root, fs, path, kind, env).0;
            var (fs'', r) := if kind.File? then DoRemoveFile(root, fs', path) else DoRemoveDir(root, fs', path);
            r == Ok(Empty) && fs''.tree == fs.tree
  {
    hide Served, DoCreate;
    CreateResolved(root, fs, path, kind, env);
    CreateOutcome(root, fs, path, kind, env);
    var p := ResolveForNewPath(root, fs.tree, path).value;
    var fs' := DoCreate(root, fs, path, kind, env).0;
    NewIsFound(root, fs, fs', path);
    JustMade(root, fs, fs', p, kind, env);
  }

  lemma JustMade(root: Path, fs: Fs, fs': Fs, p: Path, kind: EntryKind, env: Env)
    requires Served(root, fs) && Served(root, fs') && p !in fs.tree && p != []
    requires fs' == Fs(fs.tree[p := NewNode(kind, fs.next, env)], fs.next + 1)
    ensures Lookup(fs'.tree, p) == Ok(NewNode(kind, fs.next, env))
    ensures !HasChild(fs'.tree, p) && Without(fs'.tree, p) == fs.tree
  {
    LookupFinds(fs', p);
    FreeMeansFree(fs, p);
    forall q | q in fs'.tree && q != [] ensures Parent(q) != p {
      if Parent(q) == p {
        PrefixOfParent(p, q);
      }
    }
  }

  // ---- Renaming ----

  // Renaming back undoes a rename that replaced nothing: it is allowed, and the tree is as before.
  lemma RenameUndone(root: Path, fs: Fs, path: string, newPath: string, replace: bool, replaceBack: bool)
    requires Served(root, fs) && DoRename(root, fs, path, newPath, replace).1.Ok?
    requires ResolveForNewPath(root, fs.tree, newPath).Ok? && ResolveForNewPath(root, fs.tree, newPath).value !in fs.tree
    ensures var fs' := DoRename(root, fs, path, newPath, replace).0;
            && Served(root, fs')
            && DoRename(root, fs', newPath, path, replaceBack) == (fs, Ok(Empty))
  {
    hide MovesSubtree, DoRename;
    var fs' := DoRename(root, fs, path, newPath, replace).0;
    RenameDone(root, fs, path, newPath, replace);
    var from, to := ResolveExisting(root, fs.tree, path).value, ResolveForNewPath(root, fs.tree, newPath).value;
    FreeMeansFree(fs, to);
    MovesBack(fs.tree, fs'.tree, from, to);
    NewIsFound(root, fs, fs', newPath);
    FoundIsNew(root, fs, fs', path);
    RenameOutcome(root, fs', newPath, path, replaceBack);
    NamesArePlain(fs, from);
    assert RenameAllowed(fs'.tree, to, from, replaceBack);
    MovesSubtreeUnique(fs'.tree, DoRename(root, fs', newPath, path, replaceBack).0.tree, fs.tree, to, from);
  }

  // What a successful rename leaves: source gone, its parent still a directory, target there.
  lemma RenameDone(root: Path, fs: Fs, path: string, newPath: string, replace: bool)
    requires Served(root, fs) && DoRename(root, fs, path, newPath, replace).1.Ok?
    ensures ResolveExisting(root, fs.tree, path).Ok? && ResolveForNewPath(root, fs.tree, newPath).Ok?
    ensures var from, to := ResolveExisting(root, fs.tree, path).value, ResolveForNewPath(root, fs.tree, newPath).value;
            var fs' := DoRename(root, fs, path, newPath, replace).0;
            && root < from && root < to && from in fs.tree && !Related(from, to)
            && Served(root, fs') && fs'.next == fs.next && MovesSubtree(fs.tree, fs'.tree, from, to)
            && from !in fs'.tree && to in fs'.tree
            && Parent(from) in fs'.tree && fs'.tree[Parent(from)].DirNode?
  {
    RenameOutcome(root, fs, path, newPath, replace);
    ResolvedExists(root, fs, path);
    ResolvedNew(root, fs, newPath);
    DoRenameKeepsServed(root, fs, path, newPath, replace);
    var from, to := ResolveExisting(root, fs.tree, path).value, ResolveForNewPath(root, fs.tree, newPath).value;
    assert from == root ==> from <= to;
    assert Hangs(fs.tree, from);
    assert from + [] == from && to + [] == to;
    PrefixOfParent(to, from);
    assert !(from <= Parent(from));
  }

  lemma MovesBack(t: Tree, t': Tree, from: Path, to: Path)
    requires MovesSubtree(t, t', from, to) && !Related(from, to)
    requires forall q :: q in t ==> !(to <= q)
    ensures MovesSubtree(t', t, to, from)
  {
  }

  // ---- Asking again ----

  // A node with its modification and change stamps left out of account.
  function Unstamped(node: Node): Node {
    node.(meta := node.meta.(modified := FileTimeValue(0, 0), changed := FileTimeValue(0, 0)))
  }

  // The trees differ at most in those stamps of the node at `p`.
  ghost predicate SameButStamps(t: Tree, t': Tree, p: Path) {
    && t.Keys == t'.Keys
    && forall q :: q in t ==> if q == p then Unstamped(t'[q]) == Unstamped(t[q]) else t'[q] == t[q]
  }

  function UnstampedAttr(attr: FileAttr): FileAttr {
    attr.(modified := None, changed := None)
  }

  // The same error, or the same outcome with attributes that differ at most in those stamps.
  predicate SameReply(r: Reply, r': Reply) {
    match (r, r')
    case (Err(e), Err(e')) => e == e'
    case (Ok(Attr(attr)), Ok(Attr(attr'))) => UnstampedAttr(attr) == UnstampedAttr(attr')
    case (Ok(WriteResult(n, attr)), Ok(WriteResult(n', attr'))) => n == n' && UnstampedAttr(attr) == UnstampedAttr(attr')
    case _ => false
  }

  // Putting the bytes a file has moves its two stamps and nothing else; at the same instant, nothing.
  lemma PutAgain(fs: Fs, p: Path, data: seq<byte>, now: FileTimeValue, now': FileTimeValue)
    requires p in fs.tree && fs.tree[p].FileNode?
    ensures var fs' := PutData(fs, p, data, now);
            var fs'' := PutData(fs', p, data, now');
            && fs''.next == fs'.next && SameButStamps(fs'.tree, fs''.tree, p)
            && fs''.tree[p].meta.modified == now' && fs''.tree[p].meta.changed == now'
            && (now' == now ==> fs'' == fs')
  {
    var t := PutData(fs, p, data, now).tree;
    assert t[p := t[p]] == t;
  }

  lemma SameAttr(node: Node, node': Node)
    requires SizeOf(node) <= MAX_FILE && Unstamped(node') == Unstamped(node)
    ensures SizeOf(node') <= MAX_FILE && UnstampedAttr(AttrOf(node')) == UnstampedAttr(AttrOf(node))
  {
    assert node'.meta.perm == Unstamped(node).meta.perm && node'.meta.created == Unstamped(node).meta.created;
    assert node'.meta.accessed == Unstamped(node).meta.accessed;
    hide IsReadonly;
  }

  lemma SpliceAgain(b: seq<byte>, at: nat, data: seq<byte>)
    ensures Splice(Splice(b, at, data), at, data) == Splice(b, at, data)
  {
  }

  // Repeating a write at an offset with nothing run in between leaves the same bytes and gives the
  // same outcome, errors and partial writes included; only the file's modification and change
  // stamps move on, and they stay too at the same instant.
  lemma WriteAgain(root: Path, fs: Fs, path: string, offset: u64, data: seq<byte>, env: Env, env': Env)
    requires Served(root, fs) && Sized(fs.tree)
    ensures var (fs', r) := DoWrite(root, fs, path, offset, data, false, env);
            && Sized(fs'.tree)
            && var (fs'', r') := DoWrite(root, fs', path, offset, data, false, env');
               && SameReply(r, r') && fs''.next == fs'.next
               && (fs'' == fs' || (ResolveExisting(root, fs.tree, path).Ok? && SameButStamps(fs'.tree, fs''.tree, ResolveExisting(root, fs.tree, path).value)))
               && (env'.now == env.now ==> fs'' == fs' && r' == r)
  {
    hide WellFormed, Splice, AttrOf, SameButStamps, UnstampedAttr;
    DoWriteKeepsServed(root, fs, path, offset, data, false, env);
    var fs' := DoWrite(root, fs, path, offset, data, false, env).0;
    ServedIsSized(root, fs');
    ResolvedExists(root, fs, path);
    ResolvedExists(root, fs', path);
    var r := ResolveExisting(root, fs.tree, path);
    if r.Ok? && fs.tree[r.value].FileNode? && offset <= MAX_FILE {
      SpliceFits(fs.tree[r.value].data, offset, data[..Room(offset, |data|)]);
      WriteAtAgain(fs, r.value, offset, data[..Room(offset, |data|)], env.now, env'.now);
    }
  }

  lemma WriteAtAgain(fs: Fs, p: Path, at: nat, data: seq<byte>, now: FileTimeValue, now': FileTimeValue)
    requires p in fs.tree && fs.tree[p].FileNode?
    requires |Splice(fs.tree[p].data, at, data)| <= MAX_FILE
    ensures var fs' := PutSplice(fs, p, at, data, now);
            var fs'' := PutSplice(fs', p, at, data, now');
            && fs''.next == fs'.next && SameButStamps(fs'.tree, fs''.tree, p)
            && UnstampedAttr(AttrOf(fs''.tree[p])) == UnstampedAttr(AttrOf(fs'.tree[p]))
            && (now' == now ==> fs'' == fs')
  {
    SpliceAgain(fs.tree[p].data, at, data);
    if data != [] {
      PutAgain(fs, p, Splice(fs.tree[p].data, at, data), now, now');
    }
    SameAttr(PutSplice(fs, p, at, data, now).tree[p], PutSplice(PutSplice(fs, p, at, data, now), p, at, data, now').tree[p]);
  }

  // And so does a resize.
  lemma SetLenAgain(root: Path, fs: Fs, path: string, size: u64, allocation: bool, env: Env, env': Env)
    requires Served(root, fs) && Sized(fs.tree)
    ensures var (fs', r) := DoSetLen(root, fs, path, size, allocation, env);
            && Sized(fs'.tree)
            && var (fs'', r') := DoSetLen(root, fs', path, size, allocation, env');
               && SameReply(r, r') && fs''.next == fs'.next
               && (fs'' == fs' || (ResolveExisting(root, fs.tree, path).Ok? && SameButStamps(fs'.tree, fs''.tree, ResolveExisting(root, fs.tree, path).value)))
               && (env'.now == env.now ==> fs'' == fs' && r' == r)
  {
    hide WellFormed, Resized, AttrOf, SameButStamps, UnstampedAttr;
    DoSetLenKeepsServed(root, fs, path, size, allocation, env);
    var fs' := DoSetLen(root, fs, path, size, allocation, env).0;
    ServedIsSized(root, fs');
    ResolvedExists(root, fs, path);
    ResolvedExists(root, fs', path);
    var r := ResolveExisting(root, fs.tree, path);
    if r.Ok? {
      LookupFinds(fs, r.value);
      LookupFinds(fs', r.value);
      if fs.tree[r.value].FileNode? && !allocation && size <= MAX_FILE {
        ResizeAgain(fs, r.value, size, env.now, env'.now);
      }
    }
  }

  lemma ResizeAgain(fs: Fs, p: Path, size: nat, now: FileTimeValue, now': FileTimeValue)
    requires p in fs.tree && fs.tree[p].FileNode? && size <= MAX_FILE
    ensures var fs' := PutData(fs, p, Resized(fs.tree[p].data, size), now);
            var fs'' := PutData(fs', p, Resized(fs'.tree[p].data, size), now');
            && fs''.next == fs'.next && SameButStamps(fs'.tree, fs''.tree, p)
            && UnstampedAttr(AttrOf(fs''.tree[p])) == UnstampedAttr(AttrOf(fs'.tree[p]))
            && (now' == now ==> fs'' == fs')
  {
    var data := Resized(fs.tree[p].data, size);
    assert Resized(data, size) == data;
    PutAgain(fs, p, data, now, now');
    SameAttr(PutData(fs, p, data, now).tree[p], PutData(PutData(fs, p, data, now), p, data, now').tree[p]);
  }

  // An append that wrote anything grows the file again, unless it is full.
  lemma AppendAgain(root: Path, fs: Fs, path: string, offset: u64, data: seq<byte>, env: Env, env': Env)
    requires Served(root, fs) && Sized(fs.tree) && DoWrite(root, fs, path, offset, data, true, env).1.Ok?
    ensures var fs' := DoWrite(root, fs, path, offset, data, true, env).0;
            && Sized(fs'.tree)
            && (DoWrite(root, fs', path, offset, data, true, env').0 == fs' <==> data == [] || Full(root, fs', path))
  {
    DoWriteKeepsServed(root, fs, path, offset, data, true, env);
    var fs' := DoWrite(root, fs, path, offset, data, true, env).0;
    ServedIsSized(root, fs');
    ResolvedExists(root, fs, path);
    ResolvedExists(root, fs', path);
    var p := ResolveExisting(root, fs.tree, path).value;
    var size := |fs'.tree[p].data|;
    AppendGrows(fs'.tree[p].data, data[..Room(size, |data|)]);
  }

  predicate Full(root: Path, fs: Fs, path: string) {
    var p := ResolveExisting(root, fs.tree, path);
    p.Ok? && p.value in fs.tree && fs.tree[p.value].FileNode? && |fs.tree[p.value].data| >= MAX_FILE
  }

  lemma AppendGrows(b: seq<byte>, data: seq<byte>)
    ensures |Splice(b, |b|, data)| == |b| + |data|
  {
  }

  // Creating, removing or renaming again is refused and changes nothing more.
  lemma CreateAgain(root: Path, fs: Fs, path: string, kind: EntryKind, env: Env, kind': EntryKind, env': Env)
    requires Served(root, fs) && Sized(fs.tree) && DoCreate(root, fs, path, kind, env).1.Ok?
    ensures var fs' := DoCreate(root, fs, path, kind, env).0;
            Sized(fs'.tree) && DoCreate(root, fs', path, kind', env') == (fs', Err(AlreadyExists))
  {
    hide Served, DoCreate;
    CreateResolved(root, fs, path, kind, env);
    CreateOutcome(root, fs, path, kind, env);
    var fs' := DoCreate(root, fs, path, kind, env).0;
    NewStaysNew(root, fs, fs', path);
    CreateOutcome(root, fs', path, kind', env');
  }

  lemma NewStaysNew(root: Path, fs: Fs, fs': Fs, path: string)
    requires Served(root, fs) && Served(root, fs') && ResolveForNewPath(root, fs.tree, path).Ok?
    requires fs.tree.Keys <= fs'.tree.Keys
    ensures ResolveForNewPath(root, fs'.tree, path) == ResolveForNewPath(root, fs.tree, path)
  {
    ResolvedNew(root, fs, path);
    LookupFinds(fs', Parent(ResolveForNewPath(root, fs.tree, path).value));
  }

  lemma RemoveFileAgain(root: Path, fs: Fs, path: string)
    requires Served(root, fs) && DoRemoveFile(root, fs, path).1.Ok?
    ensures var fs' := DoRemoveFile(root, fs, path).0;
            DoRemoveFile(root, fs', path) == (fs', Err(NotFound))
  {
    DoRemoveKeepsServed(root, fs, path);
    RemovedAgain(root, fs, DoRemoveFile(root, fs, path).0, path);
  }

  lemma RemoveDirAgain(root: Path, fs: Fs, path: string)
    requires Served(root, fs) && DoRemoveDir(root, fs, path).1.Ok?
    ensures var fs' := DoRemoveDir(root, fs, path).0;
            DoRemoveDir(root, fs', path) == (fs', Err(NotFound))
  {
    DoRemoveKeepsServed(root, fs, path);
    RemovedAgain(root, fs, DoRemoveDir(root, fs, path).0, path);
  }

  lemma RemovedAgain(root: Path, fs: Fs, fs': Fs, path: string)
    requires Served(root, fs) && Served(root, fs') && ResolveExisting(root, fs.tree, path).Ok?
    requires fs' == fs.(tree := Without(fs.tree, ResolveExisting(root, fs.tree, path).value))
    ensures ResolveExisting(root, fs'.tree, path) == Err(NotFound)
  {
    ResolvedExists(root, fs, path);
    var p := ResolveExisting(root, fs.tree, path).value;
    assert Hangs(fs.tree, p);
    assert !(p <= Parent(p));
    GoneIsNotFound(root, fs, fs', path);
  }

  lemma RenameAgain(root: Path, fs: Fs, path: string, newPath: string, replace: bool)
    requires Served(root, fs) && DoRename(root, fs, path, newPath, replace).1.Ok?
    ensures var fs' := DoRename(root, fs, path, newPath, replace).0;
            Served(root, fs') && DoRename(root, fs', path, newPath, replace) == (fs', Err(NotFound))
  {
    hide MovesSubtree;
    RenameDone(root, fs, path, newPath, replace);
    GoneIsNotFound(root, fs, DoRename(root, fs, path, newPath, replace).0, path);
  }
}
