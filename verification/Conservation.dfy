/** Whole runs of requests: the only ways a node can go, its bytes can change, or anything outside
    the exported root can be touched. */
module Conservation {
  import opened Wrappers
  import opened Protocol
  import opened Paths
  import opened FileTree
  import opened ServerSpec
  import opened ServerInvariant
  import opened RenameLaws
  import opened Runs

  // ---- Nodes ----

  // Some present node with this identity is removed by the request.
  ghost predicate RemovesId(ex: Export, fs: Fs, request: Request, id: nat)
    requires Served(ex.root, fs)
  {
    exists p :: p in fs.tree && fs.tree[p].id == id && Removes(ex, fs, request, p)
  }

  // The k-th request of the run removes the node.
  ghost predicate RemovedAt(ex: Export, fs: Fs, calls: seq<Call>, id: nat, k: nat)
    requires Served(ex.root, fs)
  {
    k < |calls| && RemovesId(ex, Run(ex, fs, calls[..k]), calls[k].request, id)
  }

  lemma StepLosesId(ex: Export, fs: Fs, call: Call, id: nat)
    requires Served(ex.root, fs) && HasId(fs.tree, id)
    ensures !HasId(Step(ex, fs, call).tree, id) <==> RemovesId(ex, fs, call.request, id)
  {
    var p :| p in fs.tree && fs.tree[p].id == id;
    StepLoses(ex, fs, call, p);
    if RemovesId(ex, fs, call.request, id) {
      var q :| q in fs.tree && fs.tree[q].id == id && Removes(ex, fs, call.request, q);
      SameId(fs, p, q);
    }
  }

  // An old identity never comes back.
  lemma GoneStaysGone(ex: Export, fs: Fs, call: Call, id: nat)
    requires Served(ex.root, fs) && !HasId(fs.tree, id) && id < fs.next
    ensures !HasId(Step(ex, fs, call).tree, id)
  {
    var t' := Step(ex, fs, call).tree;
    forall q | q in t' ensures t'[q].id != id {
      StepIds(ex, fs, call, q);
    }
  }

  lemma {:induction false} RunNext(ex: Export, fs: Fs, calls: seq<Call>)
    requires Served(ex.root, fs)
    ensures fs.next <= Run(ex, fs, calls).next
    decreases |calls|
  {
    if calls != [] {
      var front := calls[..|calls| - 1];
      RunNext(ex, fs, front);
      StepNext(ex, Run(ex, fs, front), calls[|calls| - 1]);
    }
  }

  lemma IdIsOld(root: Path, fs: Fs, id: nat)
    requires Served(root, fs) && HasId(fs.tree, id)
    ensures id < fs.next
  {
    var p :| p in fs.tree && fs.tree[p].id == id;
  }

  lemma RunSplit(ex: Export, fs: Fs, calls: seq<Call>, k: nat)
    requires Served(ex.root, fs) && k < |calls|
    ensures calls[..|calls| - 1][..k] == calls[..k]
    ensures Run(ex, fs, calls) == Step(ex, Run(ex, fs, calls[..|calls| - 1]), calls[|calls| - 1])
  {
    hide Served, WellFormed, Step;
    assert calls[..|calls| - 1][..k] == calls[..k];
  }

  lemma {:induction false} LostWhere(ex: Export, fs: Fs, calls: seq<Call>, id: nat) returns (k: nat)
    requires Served(ex.root, fs) && HasId(fs.tree, id) && !HasId(Run(ex, fs, calls).tree, id)
    ensures RemovedAt(ex, fs, calls, id, k)
    decreases |calls|
  {
    var n := |calls| - 1;
    var front := calls[..n];
    if HasId(Run(ex, fs, front).tree, id) {
      StepLosesId(ex, Run(ex, fs, front), calls[n], id);
      k := n;
    } else {
      k := LostWhere(ex, fs, front, id);
      RunSplit(ex, fs, calls, k);
    }
  }

  lemma {:induction false} RemovedStaysRemoved(ex: Export, fs: Fs, calls: seq<Call>, id: nat, k: nat)
    requires Served(ex.root, fs) && HasId(fs.tree, id) && RemovedAt(ex, fs, calls, id, k)
    ensures !HasId(Run(ex, fs, calls).tree, id)
    decreases |calls|
  {
    hide Served, WellFormed, Step, RemovesId, HasId, Run;
    var n := |calls| - 1;
    var front := calls[..n];
    var mid := Run(ex, fs, front);
    RunSplit(ex, fs, calls, k);
    if k == n {
      RemovedWasThere(ex, mid, calls[n].request, id);
      StepLosesId(ex, mid, calls[n], id);
    } else {
      RemovedStaysRemoved(ex, fs, front, id, k);
      IdIsOld(ex.root, fs, id);
      RunNext(ex, fs, front);
      GoneStaysGone(ex, mid, calls[n], id);
    }
  }

  lemma RemovedWasThere(ex: Export, fs: Fs, request: Request, id: nat)
    requires Served(ex.root, fs) && RemovesId(ex, fs, request, id)
    ensures HasId(fs.tree, id)
  {
  }

  // Over a whole run a node is lost exactly when one of the requests removes it.
  lemma RunLoses(ex: Export, fs: Fs, calls: seq<Call>, id: nat)
    requires Served(ex.root, fs) && HasId(fs.tree, id)
    ensures !HasId(Run(ex, fs, calls).tree, id) <==> exists k: nat :: RemovedAt(ex, fs, calls, id, k)
  {
    hide RemovedAt, Run;
    if !HasId(Run(ex, fs, calls).tree, id) {
      var k := LostWhere(ex, fs, calls, id);
    }
    forall k: nat | RemovedAt(ex, fs, calls, id, k) ensures !HasId(Run(ex, fs, calls).tree, id) {
      RemovedStaysRemoved(ex, fs, calls, id, k);
    }
  }

  // ---- Bytes ----

  // The request may change the bytes of the file at `p`.
  ghost predicate Edits(ex: Export, fs: Fs, request: Request, p: Path) {
    match request
    case Write(path, _, _, _) => ResolveExisting(ex.root, fs.tree, path) == Ok(p)
    case SetLen(path, _, allocation) => !allocation && ResolveExisting(ex.root, fs.tree, path) == Ok(p)
    case _ => false
  }

  ghost predicate HasData(t: Tree, id: nat, data: seq<byte>) {
    exists p :: p in t && t[p].id == id && t[p].FileNode? && t[p].data == data
  }

  ghost predicate EditsId(ex: Export, fs: Fs, request: Request, id: nat) {
    exists p :: p in fs.tree && fs.tree[p].id == id && Edits(ex, fs, request, p)
  }

  ghost predicate EditedAt(ex: Export, fs: Fs, calls: seq<Call>, id: nat, k: nat)
    requires Served(ex.root, fs)
  {
    k < |calls| && EditsId(ex, Run(ex, fs, calls[..k]), calls[k].request, id)
  }

  lemma SetBasicInfoKeepsData(root: Path, fs: Fs, path: string, update: BasicInfoUpdate, env: Env, p: Path)
    requires Served(root, fs) && Sized(fs.tree) && p in fs.tree && fs.tree[p].FileNode?
    ensures var t' := DoSetBasicInfo(root, fs, path, update, env).0.tree;
            p in t' && t'[p].FileNode? && t'[p].data == fs.tree[p].data
  {
    ResolvedExists(root, fs, path);
  }

  lemma WriteKeepsData(root: Path, fs: Fs, path: string, offset: u64, data: seq<byte>, eof: bool, env: Env, p: Path)
    requires Served(root, fs) && p in fs.tree && fs.tree[p].FileNode? && ResolveExisting(root, fs.tree, path) != Ok(p)
    ensures var t' := DoWrite(root, fs, path, offset, data, eof, env).0.tree;
            p in t' && t'[p] == fs.tree[p]
  {
    ResolvedExists(root, fs, path);
  }

  lemma SetLenKeepsData(root: Path, fs: Fs, path: string, size: u64, allocation: bool, env: Env, p: Path)
    requires Served(root, fs) && p in fs.tree && fs.tree[p].FileNode?
    requires allocation || ResolveExisting(root, fs.tree, path) != Ok(p)
    ensures var t' := DoSetLen(root, fs, path, size, allocation, env).0.tree;
            p in t' && t'[p] == fs.tree[p]
  {
    ResolvedExists(root, fs, path);
  }

  lemma ContentStepKeepsData(ex: Export, fs: Fs, call: Call, p: Path)
    requires Served(ex.root, fs) && p in fs.tree && fs.tree[p].FileNode?
    requires KeepsPaths(call.request) && !Edits(ex, fs, call.request, p)
    ensures var t' := Step(ex, fs, call).tree;
            p in t' && t'[p].FileNode? && t'[p].data == fs.tree[p].data
  {
    ServedIsSized(ex.root, fs);
    hide Served, DoStat, DoCreate, DoReadDir, DoRead, DoWrite, DoCanDelete, DoSetLen, DoFlush, DoSetBasicInfo, DoGetVolumeInfo;
    match call.request {
      case SetBasicInfo(path, update) => SetBasicInfoKeepsData(ex.root, fs, path, update, call.env, p);
      case Write(path, offset, data, eof) => WriteKeepsData(ex.root, fs, path, offset, data, eof, call.env, p);
      case SetLen(path, size, allocation) => SetLenKeepsData(ex.root, fs, path, size, allocation, call.env, p);
      case _ =>
    }
  }

  lemma RemovalKeepsNodes(ex: Export, fs: Fs, call: Call, q: Path)
    requires Served(ex.root, fs) && (call.request.RemoveFile? || call.request.RemoveDir?)
    requires q in Step(ex, fs, call).tree
    ensures q in fs.tree && Step(ex, fs, call).tree[q] == fs.tree[q]
  {
  }

  lemma StepKeepsData(ex: Export, fs: Fs, call: Call, id: nat, data: seq<byte>)
    requires Served(ex.root, fs) && HasData(fs.tree, id, data) && !EditsId(ex, fs, call.request, id)
    requires HasId(Step(ex, fs, call).tree, id)
    ensures HasData(Step(ex, fs, call).tree, id, data)
  {
    var p :| p in fs.tree && fs.tree[p].id == id && fs.tree[p].FileNode? && fs.tree[p].data == data;
    var t' := Step(ex, fs, call).tree;
    var q :| q in t' && t'[q].id == id;
    assert WellFormed(fs);
    hide Edits, Served, WellFormed, DoRename;
    if KeepsPaths(call.request) {
      hide Step;
      KeptInPlace(ex, fs, call, p);
      ContentStepKeepsData(ex, fs, call, p);
    } else if call.request.Rename? {
      var q0 := RenameNodes(ex.root, fs, call.request.path, call.request.newPath, call.request.replaceIfExists, q);
      SameId(fs, p, q0);
    } else {
      hide Step;
      RemovalKeepsNodes(ex, fs, call, q);
      SameId(fs, p, q);
    }
  }

  lemma DataHasId(t: Tree, id: nat, data: seq<byte>)
    requires HasData(t, id, data)
    ensures HasId(t, id)
  {
    var p :| p in t && t[p].id == id && t[p].FileNode? && t[p].data == data;
  }

  // Over a whole run a file that is still there has its bytes unless a write or resize named it.
  lemma {:induction false} RunKeepsData(ex: Export, fs: Fs, calls: seq<Call>, id: nat, data: seq<byte>)
    requires Served(ex.root, fs) && HasData(fs.tree, id, data)
    requires HasId(Run(ex, fs, calls).tree, id)
    requires !exists k: nat :: EditedAt(ex, fs, calls, id, k)
    ensures HasData(Run(ex, fs, calls).tree, id, data)
    decreases |calls|
  {
    if calls != [] {
      var n := |calls| - 1;
      var front := calls[..n];
      var mid := Run(ex, fs, front);
      DataHasId(fs.tree, id, data);
      IdIsOld(ex.root, fs, id);
      RunNext(ex, fs, front);
      if !HasId(mid.tree, id) {
        GoneStaysGone(ex, mid, calls[n], id);
      }
      forall k: nat | k < n ensures !EditedAt(ex, fs, front, id, k) {
        assert front[..k] == calls[..k];
        assert !EditedAt(ex, fs, calls, id, k);
      }
      RunKeepsData(ex, fs, front, id, data);
      assert !EditedAt(ex, fs, calls, id, n);
      StepKeepsData(ex, mid, calls[n], id, data);
    }
  }

  // ---- Queries ----

  predicate IsQuery(request: Request) {
    || request.Stat? || request.Open? || request.ReadDir? || request.Read?
    || request.CanDelete? || request.Flush? || request.GetVolumeInfo?
  }

  // A run of read-style requests leaves the disk as it was, so its requests commute with any.
  lemma {:induction false} QueriesKeepEverything(ex: Export, fs: Fs, calls: seq<Call>)
    requires Served(ex.root, fs) && forall k :: 0 <= k < |calls| ==> IsQuery(calls[k].request)
    ensures Run(ex, fs, calls) == fs
    decreases |calls|
  {
    hide Served, WellFormed, DoStat, DoReadDir, DoRead, DoCanDelete, DoFlush, DoGetVolumeInfo;
    if calls != [] {
      QueriesKeepEverything(ex, fs, calls[..|calls| - 1]);
    }
  }

  // ---- Confinement ----

  ghost predicate SameOutside(root: Path, t: Tree, t': Tree) {
    forall p {:trigger p in t} {:trigger p in t'} :: !(root <= p) ==> (p in t <==> p in t') && (p in t ==> t[p] == t'[p])
  }

  // The one request that takes the exported root itself away.
  predicate RemovesRoot(root: Path, t: Tree, request: Request) {
    request.RemoveDir? && Normalize(request.path) == Ok([]) && root in t && t[root].DirNode? && !HasChild(t, root)
  }

  ghost predicate RootIsDir(root: Path, t: Tree) {
    root in t && t[root].DirNode?
  }

  // A change of the tree that stays strictly inside the root.
  ghost predicate Confined(root: Path, t: Tree, t': Tree) {
    && SameOutside(root, t, t')
    && (root in t <==> root in t')
    && (RootIsDir(root, t) ==> RootIsDir(root, t'))
  }

  lemma RenameConfined(root: Path, fs: Fs, path: string, newPath: string, replace: bool)
    requires Served(root, fs)
    ensures Confined(root, fs.tree, DoRename(root, fs, path, newPath, replace).0.tree)
  {
    var from := ResolveExisting(root, fs.tree, path);
    var to := ResolveForNewPath(root, fs.tree, newPath);
    if from.Ok? && to.Ok? {
      ResolvedExists(root, fs, path);
      ResolvedNew(root, fs, newPath);
      RenameOutcome(root, fs, path, newPath, replace);
      var t' := DoRename(root, fs, path, newPath, replace).0.tree;
      hide DoRename, WellFormed, Served, RenameAllowed, RenameError, MovesSubtree, Confined;
      NothingConfined(root, fs.tree);
      WithoutConfined(root, fs.tree, to.value);
      if t' != fs.tree && t' != Without(fs.tree, to.value) {
        StrictlyInside(root, from.value, to.value);
        MoveConfined(root, fs.tree, t', from.value, to.value);
      }
    }
  }

  // What is at or below the root and unrelated to something below it, is below it.
  lemma StrictlyInside(root: Path, from: Path, to: Path)
    requires root <= from && root < to && !Related(from, to)
    ensures root < from
  {
    assert from == root ==> from <= to;
  }

  lemma NothingConfined(root: Path, t: Tree)
    ensures Confined(root, t, t)
  {
  }

  lemma WithoutConfined(root: Path, t: Tree, p: Path)
    requires root < p
    ensures Confined(root, t, Without(t, p))
  {
  }

  lemma MoveConfined(root: Path, t: Tree, t': Tree, from: Path, to: Path)
    requires root < from && root < to && MovesSubtree(t, t', from, to)
    ensures Confined(root, t, t')
  {
  }

  lemma WriteConfined(root: Path, fs: Fs, path: string, offset: u64, data: seq<byte>, eof: bool, env: Env)
    requires Served(root, fs) && Sized(fs.tree)
    ensures Confined(root, fs.tree, DoWrite(root, fs, path, offset, data, eof, env).0.tree)
  {
    ResolvedExists(root, fs, path);
  }

  lemma SetLenConfined(root: Path, fs: Fs, path: string, size: u64, allocation: bool, env: Env)
    requires Served(root, fs) && Sized(fs.tree)
    ensures Confined(root, fs.tree, DoSetLen(root, fs, path, size, allocation, env).0.tree)
  {
    ResolvedExists(root, fs, path);
  }

  lemma SetBasicInfoConfined(root: Path, fs: Fs, path: string, update: BasicInfoUpdate, env: Env)
    requires Served(root, fs) && Sized(fs.tree)
    ensures Confined(root, fs.tree, DoSetBasicInfo(root, fs, path, update, env).0.tree)
  {
    ResolvedExists(root, fs, path);
  }

  lemma CreateConfined(root: Path, fs: Fs, path: string, kind: EntryKind, env: Env)
    requires Served(root, fs) && Sized(fs.tree)
    ensures Confined(root, fs.tree, DoCreate(root, fs, path, kind, env).0.tree)
  {
    if ResolveForNewPath(root, fs.tree, path).Ok? {
      ResolvedNew(root, fs, path);
    }
  }

  lemma RemoveFileConfined(root: Path, fs: Fs, path: string)
    requires Served(root, fs)
    ensures var t' := DoRemoveFile(root, fs, path).0.tree;
            SameOutside(root, fs.tree, t') && (root !in fs.tree ==> root !in t') && (RootIsDir(root, fs.tree) ==> RootIsDir(root, t'))
  {
    ResolvedExists(root, fs, path);
    var r := ResolveExisting(root, fs.tree, path);
    if r.Ok? {
      LookupFinds(fs, r.value);
      assert r.value <= root ==> r.value == root;
    }
  }

  lemma RemoveDirConfined(root: Path, fs: Fs, path: string)
    requires Served(root, fs)
    ensures var t' := DoRemoveDir(root, fs, path).0.tree;
            && SameOutside(root, fs.tree, t') && (root !in fs.tree ==> root !in t')
            && (RootIsDir(root, fs.tree) ==>
                  if RemovesRoot(root, fs.tree, RemoveDir(path)) then root !in t' else RootIsDir(root, t'))
  {
    ResolvedExists(root, fs, path);
    LookupFinds(fs, root);
    var r := ResolveExisting(root, fs.tree, path);
    assert root + [] == root;
    if r.Ok? {
      assert r.value == root ==> Normalize(path).value == [];
      assert r.value <= root ==> r.value == root;
    }
  }

  lemma InPlaceConfined(ex: Export, fs: Fs, call: Call)
    requires Served(ex.root, fs) && KeepsPaths(call.request)
    ensures Confined(ex.root, fs.tree, Step(ex, fs, call).tree)
  {
    var root := ex.root;
    ServedIsSized(root, fs);
    SameOutsideSteps(root, fs.tree, fs.tree, fs.tree);
    assert Confined(root, fs.tree, fs.tree);
    hide Served, WellFormed, SameOutside, RootIsDir, Confined;
    hide DoStat, DoCreate, DoReadDir, DoRead, DoWrite, DoCanDelete, DoSetLen, DoFlush, DoSetBasicInfo;
    match call.request {
      case Create(path, kind, _, _) => CreateConfined(root, fs, path, kind, call.env);
      case Write(path, offset, data, eof) => WriteConfined(root, fs, path, offset, data, eof, call.env);
      case SetLen(path, size, allocation) => SetLenConfined(root, fs, path, size, allocation, call.env);
      case SetBasicInfo(path, update) => SetBasicInfoConfined(root, fs, path, update, call.env);
      case _ =>
    }
  }

  // One request: nothing outside the root changes, and the root goes exactly when removed while empty.
  lemma StepConfined(ex: Export, fs: Fs, call: Call)
    requires Served(ex.root, fs)
    ensures SameOutside(ex.root, fs.tree, Step(ex, fs, call).tree)
    ensures ex.root !in fs.tree ==> ex.root !in Step(ex, fs, call).tree
    ensures RootIsDir(ex.root, fs.tree) ==>
              if RemovesRoot(ex.root, fs.tree, call.request) then ex.root !in Step(ex, fs, call).tree
              else RootIsDir(ex.root, Step(ex, fs, call).tree)
  {
    var root := ex.root;
    hide Served, WellFormed, SameOutside, RootIsDir, HasChild, Normalize, ResolveExisting;
    hide DoRemoveFile, DoRemoveDir, DoRename;
    if KeepsPaths(call.request) {
      InPlaceConfined(ex, fs, call);
      hide Step;
    } else {
      match call.request {
        case Rename(path, newPath, replace) => RenameConfined(root, fs, path, newPath, replace);
        case RemoveFile(path) => RemoveFileConfined(root, fs, path);
        case RemoveDir(path) => RemoveDirConfined(root, fs, path);
      }
    }
  }

  lemma SameOutsideSteps(root: Path, a: Tree, b: Tree, c: Tree)
    ensures SameOutside(root, a, a)
    ensures SameOutside(root, a, b) && SameOutside(root, b, c) ==> SameOutside(root, a, c)
  {
  }

  // Over a whole run nothing outside the root changes.
  lemma {:induction false} RunConfined(ex: Export, fs: Fs, calls: seq<Call>)
    requires Served(ex.root, fs)
    ensures SameOutside(ex.root, fs.tree, Run(ex, fs, calls).tree)
    decreases |calls|
  {
    SameOutsideSteps(ex.root, fs.tree, fs.tree, fs.tree);
    if calls != [] {
      var n := |calls| - 1;
      var mid := Run(ex, fs, calls[..n]);
      RunConfined(ex, fs, calls[..n]);
      StepConfined(ex, mid, calls[n]);
      SameOutsideSteps(ex.root, fs.tree, mid.tree, Step(ex, mid, calls[n]).tree);
    }
  }

  ghost predicate RootRemovedAt(ex: Export, fs: Fs, calls: seq<Call>, k: nat)
    requires Served(ex.root, fs)
  {
    k < |calls| && RemovesRoot(ex.root, Run(ex, fs, calls[..k]).tree, calls[k].request)
  }

  lemma {:induction false} RootLostWhere(ex: Export, fs: Fs, calls: seq<Call>) returns (k: nat)
    requires Served(ex.root, fs) && RootIsDir(ex.root, fs.tree) && !RootIsDir(ex.root, Run(ex, fs, calls).tree)
    ensures RootRemovedAt(ex, fs, calls, k)
    decreases |calls|
  {
    hide Served, WellFormed, Step, RemovesRoot, RootIsDir;
    var n := |calls| - 1;
    var front := calls[..n];
    if RootIsDir(ex.root, Run(ex, fs, front).tree) {
      StepConfined(ex, Run(ex, fs, front), calls[n]);
      k := n;
    } else {
      k := RootLostWhere(ex, fs, front);
      RunSplit(ex, fs, calls, k);
    }
  }

  lemma {:induction false} RootStaysRemoved(ex: Export, fs: Fs, calls: seq<Call>, k: nat)
    requires Served(ex.root, fs) && RootRemovedAt(ex, fs, calls, k)
    ensures ex.root !in Run(ex, fs, calls).tree
    decreases |calls|
  {
    hide Run, Step, Served, WellFormed, SameOutside, HasChild, Normalize;
    var n := |calls| - 1;
    var front := calls[..n];
    var mid := Run(ex, fs, front);
    RunSplit(ex, fs, calls, k);
    StepConfined(ex, mid, calls[n]);
    if k < n {
      RootStaysRemoved(ex, fs, front, k);
    }
  }

  // The root stays a directory until a RemoveDir names it while it is empty, and is then gone for good.
  lemma RootUntilRemoved(ex: Export, fs: Fs, calls: seq<Call>)
    requires Served(ex.root, fs) && RootIsDir(ex.root, fs.tree)
    ensures if exists k: nat :: RootRemovedAt(ex, fs, calls, k) then ex.root !in Run(ex, fs, calls).tree
            else RootIsDir(ex.root, Run(ex, fs, calls).tree)
  {
    hide RootRemovedAt, Run;
    if !RootIsDir(ex.root, Run(ex, fs, calls).tree) {
      var k := RootLostWhere(ex, fs, calls);
    }
    forall k: nat | RootRemovedAt(ex, fs, calls, k) ensures ex.root !in Run(ex, fs, calls).tree {
      RootStaysRemoved(ex, fs, calls, k);
    }
  }

  // A Create or Rename target is turned away as outside the root exactly when it names the root.
  lemma OutsideExactlyRoot(root: Path, fs: Fs, path: string)
    requires Served(root, fs)
    ensures ResolveForNewPath(root, fs.tree, path) == Err(PermissionDenied) <==> Normalize(path) == Ok([])
  {
    if Normalize(path).Ok? {
      var rel := Normalize(path).value;
      LookupFinds(fs, Parent(root + rel));
      if rel == [] {
        assert root + rel == root;
      } else {
        assert Parent(root + rel) == root + rel[..|rel| - 1];
      }
    }
  }
}
