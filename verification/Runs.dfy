/** Runs of requests, and what they conserve: which nodes can go, whose bytes can change, and what
    lies outside the exported root. */
module Runs {
  import opened Wrappers
  import opened Protocol
  import opened Paths
  import opened FileTree
  import opened ServerSpec
  import opened ServerInvariant
  import opened RenameLaws

  datatype Call = Call(request: Request, env: Env)

  ghost function Step(ex: Export, fs: Fs, call: Call): (fs': Fs)
    requires Served(ex.root, fs)
    ensures Served(ex.root, fs')
  {
    DispatchKeepsServed(ex, fs, call.request, call.env);
    Dispatch(ex, fs, call.request, call.env).0
  }

  // The disk after the requests, in order.
  ghost function Run(ex: Export, fs: Fs, calls: seq<Call>): (fs': Fs)
    requires Served(ex.root, fs)
    ensures Served(ex.root, fs')
    decreases |calls|
  {
    if calls == [] then fs else Step(ex, Run(ex, fs, calls[..|calls| - 1]), calls[|calls| - 1])
  }

  // ---- Which nodes go ----

  predicate HasId(t: Tree, id: nat) {
    exists p :: p in t && t[p].id == id
  }

  // The request takes the node at `p` away: it removes that file or empty directory, or replaces
  // it or an ancestor by a rename.
  ghost predicate Removes(ex: Export, fs: Fs, request: Request, p: Path)
    requires Served(ex.root, fs) && p in fs.tree
  {
    match request
    case RemoveFile(path) => ResolveExisting(ex.root, fs.tree, path) == Ok(p) && fs.tree[p].FileNode?
    case RemoveDir(path) => ResolveExisting(ex.root, fs.tree, path) == Ok(p) && fs.tree[p].DirNode? && !HasChild(fs.tree, p)
    case Rename(path, newPath, replace) =>
      var to := ResolveForNewPath(ex.root, fs.tree, newPath);
      replace && ResolveExisting(ex.root, fs.tree, path).Ok? && to.Ok? && to.value in fs.tree && to.value <= p
    case _ => false
  }

  lemma KeysKept(t: Tree, t': Tree, p: Path)
    requires p in t && p in t' && t'[p].id == t[p].id
    ensures HasId(t', t[p].id)
  {
  }

  lemma WithoutIds(fs: Fs, q: Path, p: Path)
    requires WellFormed(fs) && p in fs.tree
    ensures HasId(Without(fs.tree, q), fs.tree[p].id) <==> !(q <= p)
  {
    if !(q <= p) {
      KeysKept(fs.tree, Without(fs.tree, q), p);
    }
  }

  lemma MovedIds(t: Tree, t': Tree, from: Path, to: Path, p: Path)
    requires MovesSubtree(t, t', from, to) && p in t && !Related(from, to)
    ensures !(to <= p) ==> HasId(t', t[p].id)
  {
    if from <= p {
      var s := p[|from|..];
      assert p == from + s;
      assert t'[to + s] == t[p];
    } else if !(to <= p) {
      KeysKept(t, t', p);
    }
  }

  lemma MovedIdsOld(fs: Fs, t': Tree, from: Path, to: Path, p: Path)
    requires WellFormed(fs) && MovesSubtree(fs.tree, t', from, to) && p in fs.tree && !Related(from, to)
    ensures to <= p ==> !HasId(t', fs.tree[p].id)
  {
    if to <= p && HasId(t', fs.tree[p].id) {
      var q :| q in t' && t'[q].id == fs.tree[p].id;
      var q0 := if to <= q then from + q[|to|..] else q;
      if to <= q {
        assert q == to + q[|to|..];
      }
      SameId(fs, q0, p);
      PrefixesMeet(from, to, q[|to|..]);
    }
  }

  lemma SameId(fs: Fs, p: Path, q: Path)
    requires WellFormed(fs) && p in fs.tree && q in fs.tree && fs.tree[p].id == fs.tree[q].id
    ensures p == q
  {
  }

  // Requests that never take a node away leave it where it is, with its identity.
  predicate KeepsPaths(request: Request) {
    !request.RemoveFile? && !request.RemoveDir? && !request.Rename?
  }

  ghost predicate SamePlace(t: Tree, t': Tree, p: Path) {
    p in t ==> p in t' && t'[p].id == t[p].id && t'[p].DirNode? == t[p].DirNode?
  }

  // No node appears but one new one: its identity is not below `fs.next`, and below `fs'.next`.
  ghost predicate OnlyNew(fs: Fs, fs': Fs, p: Path) {
    && fs.next <= fs'.next <= fs.next + 1
    && (p in fs'.tree ==> p in fs.tree || fs'.tree[p].id >= fs.next)
  }

  ghost predicate InPlace(fs: Fs, fs': Fs, p: Path) {
    SamePlace(fs.tree, fs'.tree, p) && OnlyNew(fs, fs', p)
  }

  lemma CreateInPlace(root: Path, fs: Fs, path: string, kind: EntryKind, env: Env, p: Path)
    requires Served(root, fs) && Sized(fs.tree)
    ensures InPlace(fs, DoCreate(root, fs, path, kind, env).0, p)
  {
  }

  lemma WriteInPlace(root: Path, fs: Fs, path: string, offset: u64, data: seq<byte>, eof: bool, env: Env, p: Path)
    requires Served(root, fs) && Sized(fs.tree)
    ensures InPlace(fs, DoWrite(root, fs, path, offset, data, eof, env).0, p)
  {
    ResolvedExists(root, fs, path);
  }

  lemma SetLenInPlace(root: Path, fs: Fs, path: string, size: u64, allocation: bool, env: Env, p: Path)
    requires Served(root, fs) && Sized(fs.tree)
    ensures InPlace(fs, DoSetLen(root, fs, path, size, allocation, env).0, p)
  {
    ResolvedExists(root, fs, path);
  }

  lemma SetBasicInfoInPlace(root: Path, fs: Fs, path: string, update: BasicInfoUpdate, env: Env, p: Path)
    requires Served(root, fs) && Sized(fs.tree)
    ensures InPlace(fs, DoSetBasicInfo(root, fs, path, update, env).0, p)
  {
    ResolvedExists(root, fs, path);
  }

  // A request that neither removes nor renames leaves every node where it is.
  lemma KeptInPlace(ex: Export, fs: Fs, call: Call, p: Path)
    requires Served(ex.root, fs) && KeepsPaths(call.request)
    ensures InPlace(fs, Step(ex, fs, call), p)
  {
    ServedIsSized(ex.root, fs);
    hide DoStat, DoCreate, DoReadDir, DoRead, DoWrite, DoCanDelete, DoSetLen, DoFlush, DoSetBasicInfo, DoGetVolumeInfo, Served;
    match call.request {
      case Write(path, offset, data, eof) => WriteInPlace(ex.root, fs, path, offset, data, eof, call.env, p);
      case SetLen(path, size, allocation) => SetLenInPlace(ex.root, fs, path, size, allocation, call.env, p);
      case SetBasicInfo(path, update) => SetBasicInfoInPlace(ex.root, fs, path, update, call.env, p);
      case Create(path, kind, _, _) => CreateInPlace(ex.root, fs, path, kind, call.env, p);
      case _ =>
    }
  }

  lemma RemovalLoses(ex: Export, fs: Fs, call: Call, p: Path)
    requires Served(ex.root, fs) && p in fs.tree && (call.request.RemoveFile? || call.request.RemoveDir?)
    ensures !HasId(Step(ex, fs, call).tree, fs.tree[p].id) <==> Removes(ex, fs, call.request, p)
  {
    var path := call.request.path;
    ResolvedExists(ex.root, fs, path);
    KeysKept(fs.tree, fs.tree, p);
    var r := ResolveExisting(ex.root, fs.tree, path);
    if r.Ok? {
      LookupFinds(fs, r.value);
      WithoutIds(fs, r.value, p);
      if r.value < p {
        BelowNeedsChild(fs, r.value, p);
      }
      assert r.value <= p <==> r.value == p || r.value < p;
      hide WellFormed, Served;
    }
  }

  lemma RenameLoses(ex: Export, fs: Fs, call: Call, p: Path)
    requires Served(ex.root, fs) && p in fs.tree && call.request.Rename?
    ensures !HasId(Step(ex, fs, call).tree, fs.tree[p].id) <==> Removes(ex, fs, call.request, p)
  {
    var Rename(path, newPath, replace) := call.request;
    var from := ResolveExisting(ex.root, fs.tree, path);
    var to := ResolveForNewPath(ex.root, fs.tree, newPath);
    KeysKept(fs.tree, fs.tree, p);
    if from.Ok? && to.Ok? {
      RenameOutcome(ex.root, fs, path, newPath, replace);
      var (fs', r) := DoRename(ex.root, fs, path, newPath, replace);
      hide DoRename, Served, WellFormed;
      if r.Ok? {
        MovedIds(fs.tree, fs'.tree, from.value, to.value, p);
        MovedIdsOld(fs, fs'.tree, from.value, to.value, p);
        if to.value <= p {
          AncestorPresent(fs, to.value, p);
        }
      } else {
        WithoutIds(fs, to.value, p);
      }
    }
  }

  // A node goes exactly when the request removes it.
  lemma StepLoses(ex: Export, fs: Fs, call: Call, p: Path)
    requires Served(ex.root, fs) && p in fs.tree
    ensures !HasId(Step(ex, fs, call).tree, fs.tree[p].id) <==> Removes(ex, fs, call.request, p)
  {
    if call.request.Rename? {
      RenameLoses(ex, fs, call, p);
    } else if KeepsPaths(call.request) {
      KeptInPlace(ex, fs, call, p);
      KeysKept(fs.tree, Step(ex, fs, call).tree, p);
    } else {
      RemovalLoses(ex, fs, call, p);
    }
  }

  // ---- Where nodes come from ----

  // Where the node at `q` was before a subtree moved.
  function Whence(from: Path, to: Path, q: Path): Path {
    if to <= q then from + q[|to|..] else q
  }

  lemma MovedNodes(t: Tree, t': Tree, from: Path, to: Path, q: Path)
    requires MovesSubtree(t, t', from, to) && q in t'
    ensures Whence(from, to, q) in t && t[Whence(from, to, q)] == t'[q]
  {
    if to <= q {
      var s := q[|to|..];
      assert q == to + s;
      assert from + s in t;
    }
  }

  // After a rename, carried out or not, every node is one the tree already had, unchanged.
  lemma RenameNodes(root: Path, fs: Fs, path: string, newPath: string, replace: bool, q: Path) returns (q0: Path)
    requires Served(root, fs)
    requires q in DoRename(root, fs, path, newPath, replace).0.tree
    ensures q0 in fs.tree && fs.tree[q0] == DoRename(root, fs, path, newPath, replace).0.tree[q]
    ensures DoRename(root, fs, path, newPath, replace).0.next == fs.next
  {
    q0 := q;
    var from := ResolveExisting(root, fs.tree, path);
    var to := ResolveForNewPath(root, fs.tree, newPath);
    if from.Ok? && to.Ok? {
      hide DoRename, Served, WellFormed, MovesSubtree, RenameAllowed, RenameError, Related;
      RenameOutcome(root, fs, path, newPath, replace);
      var (fs', r) := DoRename(root, fs, path, newPath, replace);
      if r.Ok? {
        MovedNodes(fs.tree, fs'.tree, from.value, to.value, q);
        q0 := Whence(from.value, to.value, q);
      }
    }
  }

  // Every node a step leaves was there before, or is the one new node.
  lemma StepIds(ex: Export, fs: Fs, call: Call, q: Path)
    requires Served(ex.root, fs) && q in Step(ex, fs, call).tree
    ensures fs.next <= Step(ex, fs, call).next
    ensures HasId(fs.tree, Step(ex, fs, call).tree[q].id) || Step(ex, fs, call).tree[q].id >= fs.next
  {
    if call.request.Rename? {
      var q0 := RenameNodes(ex.root, fs, call.request.path, call.request.newPath, call.request.replaceIfExists, q);
    } else if KeepsPaths(call.request) {
      KeptInPlace(ex, fs, call, q);
      hide Step;
      if q in fs.tree {
        KeysKept(fs.tree, fs.tree, q);
      }
    } else {
      assert q in fs.tree;
      KeysKept(fs.tree, fs.tree, q);
    }
  }

  lemma StepNext(ex: Export, fs: Fs, call: Call)
    requires Served(ex.root, fs)
    ensures fs.next <= Step(ex, fs, call).next
  {
    var fs' := Step(ex, fs, call);
    assert [] in fs'.tree;
    StepIds(ex, fs, call, []);
  }
}
