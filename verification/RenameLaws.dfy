/** What a rename request does to the tree, in every case (RpcServer::rename). */
module RenameLaws {
  import opened Wrappers
  import opened Protocol
  import opened Paths
  import opened FileTree
  import opened ServerSpec
  import opened ServerInvariant

  // `t'` is `t` with the subtree at `from` hung at `to`: this determines `t'`.
  ghost predicate MovesSubtree(t: Tree, t': Tree, from: Path, to: Path) {
    && (forall s: Path {:trigger from + s} {:trigger to + s} :: from + s in t <==> to + s in t')
    && (forall s: Path {:trigger from + s} {:trigger to + s} :: from + s in t ==> t'[to + s] == t[from + s])
    && (forall q :: q in t' ==> !(from <= q))
    && (forall q :: !(from <= q) && !(to <= q) ==> (q in t <==> q in t') && (q in t ==> t'[q] == t[q]))
  }

  lemma MovesSubtreeUnique(t: Tree, a: Tree, b: Tree, from: Path, to: Path)
    requires MovesSubtree(t, a, from, to) && MovesSubtree(t, b, from, to)
    ensures a == b
  {
    forall q ensures (q in a <==> q in b) && (q in a ==> a[q] == b[q]) {
      if to <= q {
        var s := q[|to|..];
        assert q == to + s;
        assert from + s in t <==> to + s in a;
      }
    }
  }

  predicate Related(p: Path, q: Path) {
    p <= q || q <= p
  }

  // When a rename of an existing `from` to a target with an existing parent goes through.
  ghost predicate RenameAllowed(t: Tree, from: Path, to: Path, replaceIfExists: bool)
    requires to != [] && Parent(to) in t
  {
    && (to in t ==> replaceIfExists)
    && !Related(from, to)
    && t[Parent(to)].DirNode?
    && !HasNul(to)
  }

  // What a refused rename answers.
  function RenameError(t: Tree, from: Path, to: Path, replaceIfExists: bool): ErrorCode
    requires to != [] && Parent(to) in t
  {
    if to in t && !replaceIfExists then AlreadyExists
    else if HasNul(to) then InvalidInput
    else if to <= from then NotFound
    else if t[Parent(to)].FileNode? then NotDirectory
    else InvalidInput
  }

  lemma MovedMovesSubtree(fs: Fs, cleared: Fs, from: Path, to: Path)
    requires WellFormed(fs) && to != [] && cleared == Cleared(fs, to)
    requires !Related(from, to)
    requires forall q :: q in cleared.tree ==> !(to <= q)
    ensures MovesSubtree(fs.tree, Moved(cleared.tree, from, to), from, to)
  {
    var t, t' := fs.tree, Moved(cleared.tree, from, to);
    if to !in t {
      FreeMeansFree(fs, to);
    }
    forall s: Path ensures from + s in t <==> to + s in t' ensures from + s in t ==> t'[to + s] == t[from + s] {
      MovedMeaning(cleared.tree, from, to, to + s);
      assert Origin(from, to, to + s) == from + s;
      PrefixesMeet(from, to, s);
    }
    forall q | q in t' ensures !(from <= q) {
      MovedMeaning(cleared.tree, from, to, q);
      if to <= q {
        PrefixesMeet(to, from, q[|to|..]);
      }
    }
    forall q | !(from <= q) && !(to <= q) ensures (q in t <==> q in t') && (q in t ==> t'[q] == t[q]) {
      MovedMeaning(cleared.tree, from, to, q);
    }
  }

  // Two prefixes of one path are related.
  lemma PrefixesMeet(p: Path, q: Path, s: Path)
    ensures q <= p + s ==> Related(p, q)
  {
    if q <= p + s {
      if |q| <= |p| {
        assert q == (p + s)[..|q|] == p[..|q|];
      } else {
        assert p == (p + s)[..|p|] == q[..|p|];
      }
    }
  }

  // The source went with the target above or at it.
  lemma SourceGone(fs: Fs, from: Path, to: Path)
    requires WellFormed(fs) && from in fs.tree && to != [] && to <= from
    requires forall q :: q in Cleared(fs, to).tree ==> !(to <= q)
    ensures to in fs.tree && Hangs(fs.tree, to) && !HasNul(to)
    ensures OsRename(Cleared(fs, to), from, to) == (Cleared(fs, to), Err(NotFound))
  {
    AncestorPresent(fs, to, from);
    NamesArePlain(fs, from);
    NamesArePlain(fs, to);
    var t := Cleared(fs, to).tree;
    assert Hangs(fs.tree, from) && Hangs(fs.tree, to);
    assert !(to <= Parent(to));
    PrefixOfParent(to, from);
    NamesArePlain(fs, Parent(to));
    NamesArePlain(fs, Parent(from));
    forall k | 0 <= k < |Parent(from)| && Parent(from)[..k] in t ensures t[Parent(from)[..k]].DirNode? {
      PrefixPresent(fs, Parent(from), k);
    }
  }

  // The source is still there, whatever was cleared.
  lemma SourceStays(fs: Fs, from: Path, to: Path)
    requires WellFormed(fs) && from in fs.tree && from != [] && to != [] && !(to <= from)
    requires Parent(to) in fs.tree
    requires forall q :: q in Cleared(fs, to).tree ==> !(to <= q)
    ensures to in fs.tree ==> fs.tree[Parent(to)].DirNode? && !HasNul(to)
    ensures OsRename(Cleared(fs, to), from, to).1 ==
            if HasNul(to) then Err(InvalidInput)
            else if fs.tree[Parent(to)].FileNode? then Err(NotDirectory)
            else if from <= to then Err(InvalidInput)
            else Ok(())
  {
    var t := Cleared(fs, to).tree;
    NamesArePlain(fs, from);
    NamesArePlain(fs, Parent(to));
    assert !(to <= Parent(to));
    assert Hangs(fs.tree, from);
    NamesArePlain(fs, Parent(from));
    PrefixOfParent(to, from);
    if to in fs.tree {
      NamesArePlain(fs, to);
      assert Hangs(fs.tree, to);
    }
  }

  // Renaming answers success exactly when allowed, and then moves the subtree; when it fails the
  // tree is untouched, except that a replaced target is already gone.
  lemma RenameOutcome(root: Path, fs: Fs, path: string, newPath: string, replaceIfExists: bool)
    requires Served(root, fs)
    requires ResolveExisting(root, fs.tree, path).Ok? && ResolveForNewPath(root, fs.tree, newPath).Ok?
    ensures ResolveForNewPath(root, fs.tree, newPath).value != []
    ensures Parent(ResolveForNewPath(root, fs.tree, newPath).value) in fs.tree
    ensures var from := ResolveExisting(root, fs.tree, path).value;
            var to := ResolveForNewPath(root, fs.tree, newPath).value;
            var (fs', r) := DoRename(root, fs, path, newPath, replaceIfExists);
            && fs'.next == fs.next
            && (r == Ok(Empty) <==> RenameAllowed(fs.tree, from, to, replaceIfExists))
            && (r.Ok? ==> r == Ok(Empty) && MovesSubtree(fs.tree, fs'.tree, from, to))
            && (r.Err? ==> r == Err(RenameError(fs.tree, from, to, replaceIfExists)))
            && (r.Err? ==> fs'.tree == if replaceIfExists && to in fs.tree then Without(fs.tree, to) else fs.tree)
            && (r.Err? && fs' != fs ==> Related(from, to))
  {
    ResolvedExists(root, fs, path);
    ResolvedNew(root, fs, newPath);
    var from := ResolveExisting(root, fs.tree, path).value;
    var to := ResolveForNewPath(root, fs.tree, newPath).value;
    if to in fs.tree {
      assert Hangs(fs.tree, to);
    }
    hide WellFormed, MovesSubtree, HasNul;
    if !(to in fs.tree && !replaceIfExists) {
      var cleared := Cleared(fs, to);
      ClearedIsFree(fs, to);
      if to <= from {
        SourceGone(fs, from, to);
      } else {
        SourceStays(fs, from, to);
        if RenameAllowed(fs.tree, from, to, replaceIfExists) {
          MovedMovesSubtree(fs, cleared, from, to);
        }
      }
    }
  }
}
