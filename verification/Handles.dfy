/** A handle and one request: when the handle's path still leads to its node, and what deleting or
    renaming through a handle does. */
module Handles {
  import opened Protocol
  import opened Paths
  import opened FileTree
  import opened ServerSpec
  import opened ServerInvariant
  import opened RenameLaws
  import opened Runs
  import opened ClientSpec

  // ---- Leading to the node ----

  predicate LeadsIn(ex: Export, t: Tree, h: Handle) {
    var p := Place(ex, h.path);
    p.Ok? && p.value in t && t[p.value].id == h.node
  }

  // The string names `p` or something below it.
  predicate AtOrBelow(ex: Export, name: string, p: Path) {
    Place(ex, name).Ok? && p <= Place(ex, name).value
  }

  lemma PlaceResolves(ex: Export, fs: Fs, path: string)
    requires Served(ex.root, fs)
    ensures ResolveExisting(ex.root, fs.tree, path).Ok? <==> Place(ex, path).Ok? && Place(ex, path).value in fs.tree
    ensures ResolveExisting(ex.root, fs.tree, path).Ok? ==> ResolveExisting(ex.root, fs.tree, path) == Place(ex, path)
    ensures ResolveForNewPath(ex.root, fs.tree, path).Ok? ==> ResolveForNewPath(ex.root, fs.tree, path) == Place(ex, path)
  {
    ResolvedExists(ex.root, fs, path);
    ResolvedNew(ex.root, fs, path);
  }

  // ---- Deleting ----

  predicate KindMatches(node: Node, kind: EntryKind) {
    KindOf(node) == kind
  }

  // What deleting through the handle would remove right now: the node at its path, if it is of
  // the handle's kind and has nothing below it.
  ghost predicate Deletable(ex: Export, fs: Fs, h: Handle) {
    var p := Place(ex, h.path);
    p.Ok? && p.value in fs.tree && KindMatches(fs.tree[p.value], h.kind) && !HasChild(fs.tree, p.value)
  }

  // Cleanup, in any state whatever happened since the delete was asked for: it removes exactly
  // the node at the handle's path, when deleting was asked for, the request reached the server
  // and the node is deletable; otherwise it changes nothing.
  lemma CleanupRemovesOneNode(ex: Export, fs: Fs, h: Handle, deleteFlag: bool, env: Env, link: Link)
    requires Served(ex.root, fs)
    ensures var fs' := CleanupHandle(ex, fs, h, deleteFlag, env, link);
            if (h.deletePending || deleteFlag) && !link.LostBefore? && Deletable(ex, fs, h) then
              fs' == fs.(tree := fs.tree - {Place(ex, h.path).value})
            else fs' == fs
  {
    PlaceResolves(ex, fs, h.path);
    var p := Place(ex, h.path);
    if p.Ok? && p.value in fs.tree {
      LookupFinds(fs, p.value);
      ChildNeedsDir(fs, p.value);
      if !HasChild(fs.tree, p.value) {
        LeafWithout(fs, p.value);
      }
    }
    hide WellFormed, HasChild, Without;
  }

  lemma ChildNeedsDir(fs: Fs, p: Path)
    requires WellFormed(fs)
    ensures HasChild(fs.tree, p) ==> p in fs.tree && fs.tree[p].DirNode?
  {
    if HasChild(fs.tree, p) {
      var q :| q in fs.tree && q != [] && Parent(q) == p;
      assert Hangs(fs.tree, q);
    }
  }

  lemma LeafWithout(fs: Fs, p: Path)
    requires WellFormed(fs) && p in fs.tree && !HasChild(fs.tree, p)
    ensures Without(fs.tree, p) == fs.tree - {p}
  {
    forall q | q in fs.tree && p <= q ensures q == p {
      if q != p {
        BelowNeedsChild(fs, p, q);
      }
    }
  }

  // CanDelete grants exactly what cleanup can then remove; a refusal leaves the handle as it was.
  lemma GrantMeansDeletable(ex: Export, fs: Fs, h: Handle, env: Env, link: Link)
    requires Served(ex.root, fs)
    ensures var (fs', h', done) := SetDeleteHandle(ex, fs, h, true, env, link);
            && fs' == fs
            && (done.Ok? <==> link.Up? && Deletable(ex, fs, h))
            && h' == (if done.Ok? then h.(deletePending := true) else h)
  {
    PlaceResolves(ex, fs, h.path);
    var p := Place(ex, h.path);
    if p.Ok? {
      ChildNeedsDir(fs, p.value);
    }
    hide WellFormed, HasChild;
  }

  // ---- Renaming and the handles ----

  // Where a subtree moves, a path keeps its node exactly when it is outside source and target.
  lemma MoveSpares(fs: Fs, t': Tree, from: Path, to: Path, p: Path)
    requires WellFormed(fs) && MovesSubtree(fs.tree, t', from, to) && !Related(from, to) && p in fs.tree
    ensures p in t' && t'[p].id == fs.tree[p].id <==> !(from <= p) && !(to <= p)
  {
    if to <= p {
      var s := p[|to|..];
      assert p == to + s;
      if p in t' && fs.tree[from + s].id == fs.tree[p].id {
        SameId(fs, from + s, p);
        PrefixesMeet(from, to, s);
      }
    }
  }

  // A rename the server answers with success: another handle keeps leading to its node exactly
  // when it was neither at or below the source nor at or below the target.
  lemma RenameSparesOthers(ex: Export, fs: Fs, path: string, newPath: string, replace: bool, other: Handle)
    requires Served(ex.root, fs) && LeadsIn(ex, fs.tree, other)
    requires DoRename(ex.root, fs, path, newPath, replace).1.Ok?
    ensures Place(ex, path).Ok? && Place(ex, newPath).Ok?
    ensures LeadsIn(ex, DoRename(ex.root, fs, path, newPath, replace).0.tree, other) <==>
            !AtOrBelow(ex, other.path, Place(ex, path).value) && !AtOrBelow(ex, other.path, Place(ex, newPath).value)
  {
    RenameResolved(ex, fs, path, newPath, replace);
    assert WellFormed(fs);
    hide DoRename, Served, WellFormed, Place, MovesSubtree, Related;
    MoveSpares(fs, DoRename(ex.root, fs, path, newPath, replace).0.tree, Place(ex, path).value, Place(ex, newPath).value, Place(ex, other.path).value);
  }

  lemma RenameResolved(ex: Export, fs: Fs, path: string, newPath: string, replace: bool)
    requires Served(ex.root, fs) && DoRename(ex.root, fs, path, newPath, replace).1.Ok?
    ensures Place(ex, path).Ok? && Place(ex, newPath).Ok? && !Related(Place(ex, path).value, Place(ex, newPath).value)
    ensures MovesSubtree(fs.tree, DoRename(ex.root, fs, path, newPath, replace).0.tree, Place(ex, path).value, Place(ex, newPath).value)
  {
    PlaceResolves(ex, fs, path);
    PlaceResolves(ex, fs, newPath);
    RenameOutcome(ex.root, fs, path, newPath, replace);
  }

  // The handle renamed through: it leads to its node afterwards exactly when the answer arrived,
  // or the rename was refused without taking the handle's own path away with the target.
  lemma RenameAndItsHandle(ex: Export, fs: Fs, h: Handle, newFileName: string, replace: bool, env: Env, link: Link)
    requires Served(ex.root, fs) && LeadsIn(ex, fs.tree, h) && !link.LostBefore?
    ensures var newPath := NtPathToRelative(newFileName);
            var (fs', h', _) := RenameHandle(ex, fs, h, newFileName, replace, env, link);
            var reply := DoRename(ex.root, fs, h.path, newPath, replace).1;
            var to := ResolveForNewPath(ex.root, fs.tree, newPath);
            LeadsIn(ex, fs'.tree, h') <==>
              if reply.Ok? then link.Up?
              else !(replace && to.Ok? && to.value in fs.tree && AtOrBelow(ex, h.path, to.value))
  {
    hide DoRename, Dispatch, Send, WellFormed, MovesSubtree, RenameAllowed, RenameError, Related;
    var newPath := NtPathToRelative(newFileName);
    PlaceResolves(ex, fs, h.path);
    PlaceResolves(ex, fs, newPath);
    RenameSent(ex, fs, h.path, newPath, replace, env, link);
    var to := ResolveForNewPath(ex.root, fs.tree, newPath);
    if to.Ok? {
      RenameOutcome(ex.root, fs, h.path, newPath, replace);
      var (fs', reply) := DoRename(ex.root, fs, h.path, newPath, replace);
      if reply.Ok? {
        MovedItself(fs.tree, fs'.tree, Place(ex, h.path).value, to.value);
      }
    }
  }

  lemma RenameSent(ex: Export, fs: Fs, path: string, newPath: string, replace: bool, env: Env, link: Link)
    requires Served(ex.root, fs) && !link.LostBefore?
    ensures var (fs', reply) := DoRename(ex.root, fs, path, newPath, replace);
            && Send(ex, fs, Rename(path, newPath, replace), env, link) == (fs', Delivered(reply, link))
            && (ResolveForNewPath(ex.root, fs.tree, newPath).Err? ==> fs' == fs && reply.Err?)
  {
  }

  lemma MovedItself(t: Tree, t': Tree, from: Path, to: Path)
    requires MovesSubtree(t, t', from, to) && from in t
    ensures from !in t' && to in t' && t'[to] == t[from]
  {
    assert from + [] == from && to + [] == to;
  }

  // Nothing can be at or below a target that was free.
  lemma FreeTargetIsClear(ex: Export, fs: Fs, path: string, newPath: string, replace: bool, h: Handle)
    requires Served(ex.root, fs) && LeadsIn(ex, fs.tree, h)
    requires DoRename(ex.root, fs, path, newPath, replace).1.Ok? && !replace
    ensures Place(ex, newPath).Ok? && !AtOrBelow(ex, h.path, Place(ex, newPath).value)
  {
    PlaceResolves(ex, fs, newPath);
    FreeMeansFree(fs, Place(ex, newPath).value);
  }

  // A handle just opened or created leads to the node it was opened or created on.
  lemma MadeLeads(ex: Export, fs: Fs, path: string, request: Request, env: Env, link: Link)
    requires Served(ex.root, fs)
    requires request == Stat(path) || (request.Create? && request.path == path)
    requires WantAttr(Send(ex, fs, request, env, link).1).Ok?
    ensures Place(ex, path).Ok? && Place(ex, path).value in Send(ex, fs, request, env, link).0.tree
  {
    PlaceResolves(ex, fs, path);
    ServedIsSized(ex.root, fs);
  }

  // What was created is a new node, of the kind asked for.
  lemma CreatedIsNew(ex: Export, fs: Fs, path: string, kind: EntryKind, attributes: u32, allocation: u64, env: Env, link: Link)
    requires Served(ex.root, fs)
    requires WantAttr(Send(ex, fs, Create(path, kind, attributes, allocation), env, link).1).Ok?
    ensures var (fs', answer) := Send(ex, fs, Create(path, kind, attributes, allocation), env, link);
            NodeAt(ex, fs', path) == fs.next && WantAttr(answer).value.kind == kind
  {
    PlaceResolves(ex, fs, path);
    ServedIsSized(ex.root, fs);
  }

  // The answered rename of a handle; a refused one that replaces nothing changes nothing.
  lemma AnsweredRename(ex: Export, fs: Fs, h: Handle, newFileName: string, replace: bool, env: Env, link: Link)
    requires Served(ex.root, fs)
    ensures var (fs', h', r) := RenameHandle(ex, fs, h, newFileName, replace, env, link);
            && (r.Ok? && LeadsIn(ex, fs.tree, h) ==> LeadsIn(ex, fs'.tree, h'))
            && (r.Err? && r.error.Refused? && !replace ==> fs' == fs)
  {
    hide DoRename, LeadsIn;
    var newPath := NtPathToRelative(newFileName);
    if !link.LostBefore? {
      RenameSent(ex, fs, h.path, newPath, replace, env, link);
      if LeadsIn(ex, fs.tree, h) {
        RenameAndItsHandle(ex, fs, h, newFileName, replace, env, link);
      }
      RefusedChangesNothing(ex, fs, h.path, newPath, replace);
    }
  }

  lemma RefusedChangesNothing(ex: Export, fs: Fs, path: string, newPath: string, replace: bool)
    requires Served(ex.root, fs)
    ensures DoRename(ex.root, fs, path, newPath, replace).1.Err? && !replace ==> DoRename(ex.root, fs, path, newPath, replace).0 == fs
  {
    if ResolveExisting(ex.root, fs.tree, path).Ok? && ResolveForNewPath(ex.root, fs.tree, newPath).Ok? {
      RenameOutcome(ex.root, fs, path, newPath, replace);
    }
  }

  // ---- What a request takes from a handle ----

  // By its paths alone, the request could take away or move what the string names.
  predicate Touches(ex: Export, request: Request, name: string) {
    match request
    case RemoveFile(path) => Place(ex, path).Ok? && Place(ex, path) == Place(ex, name)
    case RemoveDir(path) => Place(ex, path).Ok? && Place(ex, path) == Place(ex, name)
    case Rename(path, newPath, replace) =>
      || (Place(ex, path).Ok? && AtOrBelow(ex, name, Place(ex, path).value))
      || (replace && Place(ex, newPath).Ok? && AtOrBelow(ex, name, Place(ex, newPath).value))
    case _ => false
  }

  // Run on this disk it takes the handle's node away or moves it.
  ghost predicate Takes(ex: Export, fs: Fs, request: Request, h: Handle)
    requires Served(ex.root, fs)
  {
    match request
    case RemoveFile(path) => Place(ex, path).Ok? && Place(ex, path) == Place(ex, h.path) && DoRemoveFile(ex.root, fs, path).1.Ok?
    case RemoveDir(path) => Place(ex, path).Ok? && Place(ex, path) == Place(ex, h.path) && DoRemoveDir(ex.root, fs, path).1.Ok?
    case Rename(path, newPath, replace) =>
      if DoRename(ex.root, fs, path, newPath, replace).1.Ok? then Touches(ex, request, h.path)
      else
        var to := ResolveForNewPath(ex.root, fs.tree, newPath);
        && replace && ResolveExisting(ex.root, fs.tree, path).Ok?
        && to.Ok? && to.value in fs.tree && AtOrBelow(ex, h.path, to.value)
    case _ => false
  }

  lemma RemoveFileTakes(ex: Export, fs: Fs, path: string, h: Handle)
    requires Served(ex.root, fs) && LeadsIn(ex, fs.tree, h)
    ensures LeadsIn(ex, DoRemoveFile(ex.root, fs, path).0.tree, h) <==> !Takes(ex, fs, RemoveFile(path), h)
  {
    hide WellFormed;
    PlaceResolves(ex, fs, path);
    var p := Place(ex, path);
    if p.Ok? && p.value in fs.tree {
      LookupFinds(fs, p.value);
      if fs.tree[p.value].FileNode? {
        ChildNeedsDir(fs, p.value);
        LeafWithout(fs, p.value);
      }
    }
  }

  lemma RemoveDirTakes(ex: Export, fs: Fs, path: string, h: Handle)
    requires Served(ex.root, fs) && LeadsIn(ex, fs.tree, h)
    ensures LeadsIn(ex, DoRemoveDir(ex.root, fs, path).0.tree, h) <==> !Takes(ex, fs, RemoveDir(path), h)
  {
    hide WellFormed, HasChild;
    PlaceResolves(ex, fs, path);
    var p := Place(ex, path);
    if p.Ok? && p.value in fs.tree {
      LookupFinds(fs, p.value);
      if !HasChild(fs.tree, p.value) {
        LeafWithout(fs, p.value);
      }
    }
  }

  lemma RenameTakes(ex: Export, fs: Fs, path: string, newPath: string, replace: bool, h: Handle)
    requires Served(ex.root, fs) && LeadsIn(ex, fs.tree, h)
    ensures LeadsIn(ex, DoRename(ex.root, fs, path, newPath, replace).0.tree, h) <==> !Takes(ex, fs, Rename(path, newPath, replace), h)
    ensures Takes(ex, fs, Rename(path, newPath, replace), h) ==> Touches(ex, Rename(path, newPath, replace), h.path)
  {
    hide DoRename, WellFormed, MovesSubtree, RenameAllowed, RenameError;
    PlaceResolves(ex, fs, path);
    PlaceResolves(ex, fs, newPath);
    if DoRename(ex.root, fs, path, newPath, replace).1.Ok? {
      RenameSparesOthers(ex, fs, path, newPath, replace, h);
      if !replace {
        FreeTargetIsClear(ex, fs, path, newPath, replace, h);
      }
    } else if ResolveExisting(ex.root, fs.tree, path).Ok? && ResolveForNewPath(ex.root, fs.tree, newPath).Ok? {
      RenameOutcome(ex.root, fs, path, newPath, replace);
    } else {
      RenameUnresolved(ex, fs, path, newPath, replace);
    }
  }

  lemma RenameUnresolved(ex: Export, fs: Fs, path: string, newPath: string, replace: bool)
    requires Served(ex.root, fs)
    requires ResolveExisting(ex.root, fs.tree, path).Err? || ResolveForNewPath(ex.root, fs.tree, newPath).Err?
    ensures DoRename(ex.root, fs, path, newPath, replace).0 == fs
  {
  }

  // Whatever request the server runs, a handle that led to its node still does exactly when the
  // request did not take it; and only a request whose paths touch the handle can.
  lemma TakenExactly(ex: Export, fs: Fs, request: Request, env: Env, h: Handle)
    requires Served(ex.root, fs) && LeadsIn(ex, fs.tree, h)
    ensures LeadsIn(ex, Dispatch(ex, fs, request, env).0.tree, h) <==> !Takes(ex, fs, request, h)
    ensures Takes(ex, fs, request, h) ==> Touches(ex, request, h.path)
  {
    if KeepsPaths(request) {
      StayingInPlace(ex, fs, request, env, h);
    } else {
      hide Served, WellFormed, LeadsIn, DoRename, DoRemoveFile, DoRemoveDir, ResolveExisting, ResolveForNewPath;
      match request {
        case RemoveFile(path) => RemoveFileTakes(ex, fs, path, h);
        case RemoveDir(path) => RemoveDirTakes(ex, fs, path, h);
        case Rename(path, newPath, replace) => RenameTakes(ex, fs, path, newPath, replace, h);
      }
    }
  }

  lemma StayingInPlace(ex: Export, fs: Fs, request: Request, env: Env, h: Handle)
    requires Served(ex.root, fs) && LeadsIn(ex, fs.tree, h) && KeepsPaths(request)
    ensures LeadsIn(ex, Dispatch(ex, fs, request, env).0.tree, h)
  {
    hide Served, WellFormed, Dispatch;
    KeptInPlace(ex, fs, Call(request, env), Place(ex, h.path).value);
  }
}
