/** A table of inodes, the flat tree it represents, and what changing single entries of the table
    does to that tree. */
module DiskHeap {
  import opened Protocol
  import opened Paths
  import opened FileTree

  datatype Inode =
    | DirInode(children: map<string, nat>, meta: Meta)
    | FileInode(data: seq<byte>, meta: Meta)

  type Table = map<nat, Inode>

  ghost predicate Matches(inode: Inode, t: Tree, p: Path)
    requires p in t
  {
    && inode.meta == t[p].meta
    && match inode
       case FileInode(data, _) => t[p].FileNode? && data == t[p].data
       case DirInode(children, _) =>
         && t[p].DirNode?
         && (forall name :: name in children <==> Child(p, name) in t)
         && (forall name :: name in children ==> children[name] == t[Child(p, name)].id)
  }

  ghost predicate Represents(table: Table, rootId: nat, fs: Fs) {
    && WellFormed(fs)
    && fs.tree[[]].id == rootId
    && forall p {:trigger Holds(table, fs.tree, p)} :: p in fs.tree ==> Holds(table, fs.tree, p)
  }

  ghost predicate Holds(table: Table, t: Tree, p: Path)
    requires p in t
  {
    t[p].id in table && Matches(table[t[p].id], t, p)
  }

  // ---- In-place changes and the flat changes they represent ----

  function Linked(table: Table, dir: nat, name: string, id: nat): Table {
    if dir in table && table[dir].DirInode? then
      table[dir := table[dir].(children := table[dir].children[name := id])]
    else table
  }

  function Unlinked(table: Table, dir: nat, name: string): Table {
    if dir in table && table[dir].DirInode? then
      table[dir := table[dir].(children := table[dir].children - {name})]
    else table
  }

  lemma PutRepresents(table: Table, rootId: nat, fs: Fs, p: Path, node: Node, inode: Inode)
    requires Represents(table, rootId, fs) && p in fs.tree
    requires node.id == fs.tree[p].id && node.DirNode? == fs.tree[p].DirNode?
    requires node.FileNode? ==> |node.data| <= MAX_FILE
    requires inode.meta == node.meta && inode.FileInode? == node.FileNode?
    requires inode.FileInode? ==> inode.data == node.data
    requires inode.DirInode? ==> Holds(table, fs.tree, p) && inode.children == table[node.id].children
    ensures Represents(table[node.id := inode], rootId, fs.(tree := fs.tree[p := node]))
  {
    PutKeepsForm(fs, p, node);
    var t, t', table' := fs.tree, fs.tree[p := node], table[node.id := inode];
    forall q | q in t' ensures Holds(table', t', q) {
      assert Holds(table, t, q);
    }
  }

  lemma AddRepresents(table: Table, rootId: nat, fs: Fs, p: Path, kind: EntryKind, env: Env, inode: Inode)
    requires Represents(table, rootId, fs) && p != [] && p !in fs.tree && !HasNul(p)
    requires Parent(p) in fs.tree && fs.tree[Parent(p)].DirNode? && PlainName(Base(p))
    requires var node := NewNode(kind, fs.next, env);
             inode == if kind.File? then FileInode([], node.meta) else DirInode(map[], node.meta)
    ensures Represents(Linked(table[fs.next := inode], fs.tree[Parent(p)].id, Base(p), fs.next), rootId,
                       Fs(fs.tree[p := NewNode(kind, fs.next, env)], fs.next + 1))
  {
    AddKeepsForm(fs, p, kind, env);
    FreeMeansFree(fs, p);
    var t, t' := fs.tree, fs.tree[p := NewNode(kind, fs.next, env)];
    var table' := Linked(table[fs.next := inode], t[Parent(p)].id, Base(p), fs.next);
    assert |Parent(p)| < |p|;
    assert Holds(table, t, Parent(p));
    forall q | q in t' ensures Holds(table', t', q) {
      if q == p {
        AddedMatchesItself(t, p, inode, NewNode(kind, fs.next, env));
      } else {
        SameNode(fs, q, Parent(p));
        assert Holds(table, t, q);
        AddedMatches(t, p, q, table[t[q].id], NewNode(kind, fs.next, env));
      }
    }
  }

  lemma AddedMatchesItself(t: Tree, p: Path, inode: Inode, node: Node)
    requires p != [] && forall q :: q in t ==> !(p <= q)
    requires inode.meta == node.meta && inode.FileInode? == node.FileNode?
    requires if inode.FileInode? then inode.data == node.data else inode.children == map[]
    ensures Matches(inode, t[p := node], p)
  {
    forall name ensures Child(p, name) !in t[p := node] {
      assert p <= Child(p, name);
    }
  }

  lemma AddedMatches(t: Tree, p: Path, q: Path, inode: Inode, node: Node)
    requires p != [] && p !in t && q in t && Matches(inode, t, q)
    ensures var inode' := if q == Parent(p) && inode.DirInode? then inode.(children := inode.children[Base(p) := node.id]) else inode;
            Matches(inode', t[p := node], q)
  {
    var t' := t[p := node];
    forall name
      ensures Child(q, name) in t' <==> Child(q, name) in t || (q == Parent(p) && name == Base(p))
      ensures Child(q, name) in t' ==> t'[Child(q, name)] == if q == Parent(p) && name == Base(p) then node else t[Child(q, name)]
    {
      ChildIs(q, name, p);
    }
  }

  lemma ChildIs(q: Path, name: string, p: Path)
    requires p != []
    ensures Child(q, name) == p <==> q == Parent(p) && name == Base(p)
  {
    assert p == Parent(p) + [Base(p)];
  }

  // Unlinking a node with nothing below it.
  lemma DropRepresents(table: Table, rootId: nat, fs: Fs, p: Path)
    requires Represents(table, rootId, fs) && p != [] && p in fs.tree
    requires fs.tree[p].FileNode? || !HasChild(fs.tree, p)
    ensures Hangs(fs.tree, p)
    ensures Represents(Unlinked(table, fs.tree[Parent(p)].id, Base(p)), rootId, fs.(tree := Without(fs.tree, p)))
  {
    WithoutKeepsForm(fs, p);
    assert Hangs(fs.tree, p);
    var t, t' := fs.tree, Without(fs.tree, p);
    var table' := Unlinked(table, t[Parent(p)].id, Base(p));
    assert Holds(table, t, Parent(p));
    forall q | q in t && p <= q ensures q == p {
      if q != p {
        BelowNeedsChild(fs, p, q);
      }
    }
    forall q | q in t' ensures Holds(table', t', q) {
      assert Holds(table, t, q);
      forall name ensures Child(q, name) in t' <==> Child(q, name) in t && !(q == Parent(p) && name == Base(p)) {
        ChildIs(q, name, p);
      }
    }
  }

  // A node of the moved tree and the node it was.
  function Before(from: Path, to: Path, q: Path): Path {
    if to <= q then Origin(from, to, q) else q
  }

  lemma MovedChildren(t: Tree, from: Path, to: Path, q: Path, name: string)
    requires from in t && from != [] && to != []
    requires !(from <= to) && forall q :: q in t ==> !(to <= q)
    requires q in Moved(t, from, to)
    ensures Child(q, name) in Moved(t, from, to) <==>
            || (q == Parent(to) && name == Base(to))
            || (Child(Before(from, to, q), name) in t && !(q == Parent(from) && name == Base(from)))
    ensures Child(q, name) in Moved(t, from, to) ==>
            Moved(t, from, to)[Child(q, name)] ==
            if q == Parent(to) && name == Base(to) then t[from] else t[Child(Before(from, to, q), name)]
  {
    var c := Child(q, name);
    MovedMeaning(t, from, to, q);
    MovedMeaning(t, from, to, c);
    ChildIs(q, name, to);
    ChildIs(q, name, from);
    PrefixOfParent(to, c);
    PrefixOfParent(from, c);
    if to <= q {
      OriginStep(from, to, c);
      assert Origin(from, to, c) == Child(Origin(from, to, q), name);
      PrefixOfParent(to, from);
      assert to <= Parent(from) ==> to <= from;
    } else if c == to {
      assert Origin(from, to, to) == from;
    }
  }

  lemma BeforeParents(from: Path, to: Path, q: Path)
    requires from != [] && to != [] && !(from <= to) && !(to <= from)
    ensures Before(from, to, q) == Parent(from) <==> q == Parent(from)
    ensures Before(from, to, q) == Parent(to) <==> q == Parent(to)
  {
    PrefixOfParent(from, to);
    PrefixOfParent(to, from);
    assert |Parent(from)| < |from| && |Parent(to)| < |to|;
    if to <= q {
      assert from <= Origin(from, to, q);
    }
  }

  // What the changed table must hold for one node of the moved tree.
  function Rehung(inode: Inode, from: Path, to: Path, id: nat, q: Path): Inode
    requires from != [] && to != []
  {
    if inode.FileInode? then inode
    else
      var less := if q == Parent(from) then inode.children - {Base(from)} else inode.children;
      inode.(children := if q == Parent(to) then less[Base(to) := id] else less)
  }

  lemma MoveMatches(t: Tree, from: Path, to: Path, q: Path, inode: Inode)
    requires from in t && from != [] && to != []
    requires !(from <= to) && forall q :: q in t ==> !(to <= q)
    requires q in Moved(t, from, to) && Before(from, to, q) in t
    requires Matches(inode, t, Before(from, to, q))
    ensures Matches(Rehung(inode, from, to, t[from].id, q), Moved(t, from, to), q)
  {
    MovedMeaning(t, from, to, q);
    if inode.DirInode? {
      var children := Rehung(inode, from, to, t[from].id, q).children;
      forall name
        ensures name in children <==> Child(q, name) in Moved(t, from, to)
        ensures name in children ==> children[name] == Moved(t, from, to)[Child(q, name)].id
      {
        MovedChildren(t, from, to, q, name);
      }
    }
  }

  lemma SameNode(fs: Fs, p: Path, q: Path)
    requires WellFormed(fs) && p in fs.tree && q in fs.tree
    ensures fs.tree[p].id == fs.tree[q].id <==> p == q
  {
  }

  lemma MoveRepresents(table: Table, rootId: nat, fs: Fs, from: Path, to: Path)
    requires Represents(table, rootId, fs) && from in fs.tree && from != [] && to != []
    requires !(from <= to) && forall q :: q in fs.tree ==> !(to <= q)
    requires Parent(to) in fs.tree && fs.tree[Parent(to)].DirNode? && PlainName(Base(to))
    ensures Hangs(fs.tree, from)
    ensures Represents(Linked(Unlinked(table, fs.tree[Parent(from)].id, Base(from)), fs.tree[Parent(to)].id, Base(to), fs.tree[from].id),
                       rootId, fs.(tree := Moved(fs.tree, from, to)))
  {
    MovedKeepsForm(fs, from, to);
    assert Hangs(fs.tree, from);
    var t, t' := fs.tree, Moved(fs.tree, from, to);
    var table' := Linked(Unlinked(table, t[Parent(from)].id, Base(from)), t[Parent(to)].id, Base(to), t[from].id);
    MovedMeaning(t, from, to, []);
    assert Holds(table, t, Parent(from)) && Holds(table, t, Parent(to));
    forall q | q in t' ensures Holds(table', t', q) {
      MovedMeaning(t, from, to, q);
      BeforeParents(from, to, q);
      var q0 := Before(from, to, q);
      SameNode(fs, q0, Parent(from));
      SameNode(fs, q0, Parent(to));
      assert Holds(table, t, q0);
      MoveOne(table, t, from, to, q);
    }
  }

  lemma MoveOne(table: Table, t: Tree, from: Path, to: Path, q: Path)
    requires from in t && from != [] && to != []
    requires !(from <= to) && forall q :: q in t ==> !(to <= q)
    requires Parent(from) in t && t[Parent(from)].id in table && table[t[Parent(from)].id].DirInode?
    requires Parent(to) in t && t[Parent(to)].id in table && table[t[Parent(to)].id].DirInode?
    requires q in Moved(t, from, to) && Before(from, to, q) in t
    requires Moved(t, from, to)[q] == t[Before(from, to, q)]
    requires var id := t[Before(from, to, q)].id;
             && id in table && Matches(table[id], t, Before(from, to, q))
             && (id == t[Parent(from)].id <==> q == Parent(from))
             && (id == t[Parent(to)].id <==> q == Parent(to))
    ensures var t' := Moved(t, from, to);
            var table' := Linked(Unlinked(table, t[Parent(from)].id, Base(from)), t[Parent(to)].id, Base(to), t[from].id);
            Holds(table', t', q)
  {
    var inode := table[t[Before(from, to, q)].id];
    MoveMatches(t, from, to, q, inode);
    var table' := Linked(Unlinked(table, t[Parent(from)].id, Base(from)), t[Parent(to)].id, Base(to), t[from].id);
    assert table'[t[Before(from, to, q)].id] == Rehung(inode, from, to, t[from].id, q);
  }
}
