/** What requests leave of a node's attributes: permission bits, creation time and the other stamps
    (crates/netfilum-server/src/server.rs). */
module Attributes {
  import opened Wrappers
  import opened Protocol
  import opened Paths
  import opened FileTree
  import opened ServerSpec
  import opened ServerInvariant
  import opened Runs
  import opened Conservation
  import opened MountLaws

  // ---- The read-only bits ----

  // Every permission bit but 0o200, 0o020 and 0o002 is the same.
  predicate SameOtherBits(a: Perm, b: Perm) {
    a / 0x100 == b / 0x100 && a / 0x20 % 4 == b / 0x20 % 4 && a / 4 % 4 == b / 4 % 4 && a % 2 == b % 2
  }

  // Clearing the read-only state sets the owner's write bit and keeps every other bit; setting it
  // clears the three write bits and keeps every other.
  lemma ReadonlyBits(perm: Perm)
    ensures var clear := WithReadonly(perm, false);
            clear / 0x80 % 2 == 1 && clear / 0x10 % 2 == perm / 0x10 % 2 && clear / 2 % 2 == perm / 2 % 2 && SameOtherBits(clear, perm)
    ensures var locked := WithReadonly(perm, true);
            locked / 0x80 % 2 == 0 && locked / 0x10 % 2 == 0 && locked / 2 % 2 == 0 && SameOtherBits(locked, perm)
    ensures IsReadonly(perm) <==> perm / 0x80 % 2 == 0 && perm / 0x10 % 2 == 0 && perm / 2 % 2 == 0
  {
    var h, b7, m, b4, l, b1, b0 := PermHasBits(perm);
    PermFromBits(h, b7, m, b4, l, b1, b0);
    PermFromBits(h, 0, m, 0, l, 0, b0);
    PermFromBits(h, 1, m, b4, l, b1, b0);
  }

  lemma BitsSum(perm: Perm)
    ensures perm == 0x100 * (perm / 0x100) + 0x80 * (perm / 0x80 % 2) + 0x20 * (perm / 0x20 % 4) + 0x10 * (perm / 0x10 % 2)
                    + 4 * (perm / 4 % 4) + 2 * (perm / 2 % 2) + perm % 2
  {
    var h, b7, m, b4, l, b1, b0 := PermHasBits(perm);
    PermFromBits(h, b7, m, b4, l, b1, b0);
  }

  // Those bits are all there is.
  lemma BitsDetermine(a: Perm, b: Perm)
    requires SameOtherBits(a, b) && a / 0x80 % 2 == b / 0x80 % 2 && a / 0x10 % 2 == b / 0x10 % 2 && a / 2 % 2 == b / 2 % 2
    ensures a == b
  {
    BitsSum(a);
    BitsSum(b);
  }

  // The bits 0444 made writable are 0644; 0777 made read-only are 0555.
  lemma ReadonlyExamples()
    ensures WithReadonly(0x124, false) == 0x1a4 && WithReadonly(0x1ff, true) == 0x16d
  {
  }

  // What the read-only value asked for makes of permission bits.
  predicate BitsTook(before: Perm, after: Perm, readonly: Option<bool>) {
    match readonly
    case None => after == before
    case Some(true) => SameOtherBits(after, before) && after / 0x80 % 2 == 0 && after / 0x10 % 2 == 0 && after / 2 % 2 == 0
    case Some(false) =>
      SameOtherBits(after, before) && after / 0x80 % 2 == 1 && after / 0x10 % 2 == before / 0x10 % 2 && after / 2 % 2 == before / 2 % 2
  }

  // Whether the times are accepted or refused, the bits take; the creation time and bytes stay.
  lemma SetBasicInfoLeaves(root: Path, fs: Fs, path: string, update: BasicInfoUpdate, env: Env, p: Path)
    requires Served(root, fs) && Sized(fs.tree) && ResolveExisting(root, fs.tree, path) == Ok(p) && p in fs.tree
    ensures var t' := DoSetBasicInfo(root, fs, path, update, env).0.tree;
            && SameElsewhere(fs.tree, t', p) && p in t' && t'[p].DirNode? == fs.tree[p].DirNode?
            && (fs.tree[p].FileNode? ==> t'[p].data == fs.tree[p].data)
            && BitsTook(fs.tree[p].meta.perm, t'[p].meta.perm, update.readonly)
            && t'[p].meta.created == fs.tree[p].meta.created
  {
    hide WithReadonly, IsReadonly, SameOtherBits, StampAllowed, NextTime, CurrentTime, AttrOf, WellFormed, Served;
    ReadonlyBits(fs.tree[p].meta.perm);
  }

  // ---- Writing and resizing ----

  // Permission bits, creation and access times stay; the other two stamps are the instant.
  predicate OnlyTouched(before: Meta, after: Meta, now: FileTimeValue) {
    && after.perm == before.perm && after.created == before.created && after.accessed == before.accessed
    && after.modified == now && after.changed == now
  }

  // What an answer shows of it.
  predicate ShowsTouched(before: Node, attr: FileAttr)
    requires SizeOf(before) <= MAX_FILE
  {
    var was := AttrOf(before);
    attr.readonly == was.readonly && attr.mode == was.mode && attr.created == was.created && attr.accessed == was.accessed
  }

  lemma WriteLeaves(root: Path, fs: Fs, path: string, offset: u64, data: seq<byte>, eof: bool, env: Env, p: Path)
    requires Served(root, fs) && Sized(fs.tree) && ResolveExisting(root, fs.tree, path) == Ok(p) && p in fs.tree && fs.tree[p].FileNode?
    ensures var (fs', r) := DoWrite(root, fs, path, offset, data, eof, env);
            var at := if eof then |fs.tree[p].data| else offset;
            && SameElsewhere(fs.tree, fs'.tree, p) && p in fs'.tree && fs'.tree[p].FileNode?
            && (if Room(at, |data|) == 0 then fs' == fs else OnlyTouched(fs.tree[p].meta, fs'.tree[p].meta, env.now))
            && (r.Ok? ==> r.value.WriteResult? && ShowsTouched(fs.tree[p], r.value.newAttr))
  {
    hide Served, WellFormed, Splice, IsReadonly;
  }

  lemma SetLenLeaves(root: Path, fs: Fs, path: string, size: u64, env: Env, p: Path)
    requires Served(root, fs) && Sized(fs.tree) && ResolveExisting(root, fs.tree, path) == Ok(p) && p in fs.tree && fs.tree[p].FileNode?
    ensures var (fs', r) := DoSetLen(root, fs, path, size, false, env);
            && SameElsewhere(fs.tree, fs'.tree, p) && p in fs'.tree && fs'.tree[p].FileNode?
            && (if size > MAX_FILE then fs' == fs else OnlyTouched(fs.tree[p].meta, fs'.tree[p].meta, env.now))
            && (r.Ok? ==> r.value.Attr? && ShowsTouched(fs.tree[p], r.value.attr))
  {
    assert WellFormed(fs);
    hide Served, WellFormed, Resized, IsReadonly;
    LookupFinds(fs, p);
  }

  // ---- Over steps and runs ----

  // The request may change the permission bits of the node at `p`.
  ghost predicate Chmods(ex: Export, fs: Fs, request: Request, p: Path) {
    request.SetBasicInfo? && request.update.readonly.Some? && ResolveExisting(ex.root, fs.tree, request.path) == Ok(p)
  }

  ghost predicate ChmodsId(ex: Export, fs: Fs, request: Request, id: nat) {
    exists p :: p in fs.tree && fs.tree[p].id == id && Chmods(ex, fs, request, p)
  }

  // Same kind, same creation time, and the same permission bits if asked.
  predicate Kept(before: Node, after: Node, bits: bool) {
    && after.DirNode? == before.DirNode? && after.meta.created == before.meta.created
    && (bits ==> after.meta.perm == before.meta.perm)
  }

  lemma CreateKeeps(root: Path, fs: Fs, path: string, kind: EntryKind, env: Env, p: Path)
    requires Served(root, fs) && Sized(fs.tree) && p in fs.tree
    ensures var t' := DoCreate(root, fs, path, kind, env).0.tree;
            p in t' && t'[p] == fs.tree[p]
  {
  }

  lemma WriteKeeps(root: Path, fs: Fs, path: string, offset: u64, data: seq<byte>, eof: bool, env: Env, p: Path)
    requires Served(root, fs) && Sized(fs.tree) && p in fs.tree
    ensures var t' := DoWrite(root, fs, path, offset, data, eof, env).0.tree;
            p in t' && Kept(fs.tree[p], t'[p], true)
  {
    hide Splice, WellFormed;
    ResolvedExists(root, fs, path);
  }

  lemma SetLenKeeps(root: Path, fs: Fs, path: string, size: u64, allocation: bool, env: Env, p: Path)
    requires Served(root, fs) && Sized(fs.tree) && p in fs.tree
    ensures var t' := DoSetLen(root, fs, path, size, allocation, env).0.tree;
            p in t' && Kept(fs.tree[p], t'[p], true)
  {
    hide Resized, WellFormed;
    ResolvedExists(root, fs, path);
  }

  lemma SetBasicInfoKeeps(ex: Export, fs: Fs, path: string, update: BasicInfoUpdate, env: Env, p: Path)
    requires Served(ex.root, fs) && Sized(fs.tree) && p in fs.tree
    ensures var t' := DoSetBasicInfo(ex.root, fs, path, update, env).0.tree;
            p in t' && Kept(fs.tree[p], t'[p], !Chmods(ex, fs, SetBasicInfo(path, update), p))
  {
    hide DoSetBasicInfo, WellFormed;
    ResolvedExists(ex.root, fs, path);
    var r := ResolveExisting(ex.root, fs.tree, path);
    if r.Ok? {
      SetBasicInfoLeaves(ex.root, fs, path, update, env, r.value);
    } else {
      UnresolvedInfo(ex.root, fs, path, update, env);
    }
  }

  lemma UnresolvedInfo(root: Path, fs: Fs, path: string, update: BasicInfoUpdate, env: Env)
    requires Sized(fs.tree) && ResolveExisting(root, fs.tree, path).Err?
    ensures DoSetBasicInfo(root, fs, path, update, env).0 == fs
  {
  }

  lemma InPlaceKeeps(ex: Export, fs: Fs, call: Call, p: Path)
    requires Served(ex.root, fs) && KeepsPaths(call.request) && p in fs.tree
    ensures var t' := Step(ex, fs, call).tree;
            p in t' && Kept(fs.tree[p], t'[p], !Chmods(ex, fs, call.request, p))
  {
    hide Served, DoStat, DoCreate, DoReadDir, DoRead, DoWrite, DoCanDelete, DoSetLen, DoFlush, DoSetBasicInfo, DoGetVolumeInfo;
    ServedIsSized(ex.root, fs);
    match call.request {
      case Create(path, kind, _, _) => CreateKeeps(ex.root, fs, path, kind, call.env, p);
      case Write(path, offset, data, eof) => WriteKeeps(ex.root, fs, path, offset, data, eof, call.env, p);
      case SetLen(path, size, allocation) => SetLenKeeps(ex.root, fs, path, size, allocation, call.env, p);
      case SetBasicInfo(path, update) => SetBasicInfoKeeps(ex, fs, path, update, call.env, p);
      case _ =>
    }
  }

  // A node before and after one request, wherever it is by then.
  lemma StepKeepsNode(ex: Export, fs: Fs, call: Call, p: Path, q: Path)
    requires Served(ex.root, fs) && p in fs.tree && q in Step(ex, fs, call).tree
    requires Step(ex, fs, call).tree[q].id == fs.tree[p].id
    ensures Kept(fs.tree[p], Step(ex, fs, call).tree[q], !Chmods(ex, fs, call.request, p))
  {
    assert WellFormed(fs) && WellFormed(Step(ex, fs, call));
    hide Served, WellFormed, Chmods, DoRename;
    if KeepsPaths(call.request) {
      hide Step;
      InPlaceKeeps(ex, fs, call, p);
      KeptInPlace(ex, fs, call, p);
      SameId(Step(ex, fs, call), p, q);
    } else if call.request.Rename? {
      var q0 := RenameNodes(ex.root, fs, call.request.path, call.request.newPath, call.request.replaceIfExists, q);
      SameId(fs, p, q0);
    } else {
      hide Step;
      RemovalKeepsNodes(ex, fs, call, q);
      SameId(fs, p, q);
    }
  }

  ghost predicate ChmodsAt(ex: Export, fs: Fs, calls: seq<Call>, id: nat, k: nat)
    requires Served(ex.root, fs)
  {
    k < |calls| && ChmodsId(ex, Run(ex, fs, calls[..k]), calls[k].request, id)
  }

  // The node with that identity is as `node` was, in kind, creation time and, if asked, permission bits.
  ghost predicate HasKept(t: Tree, id: nat, node: Node, bits: bool) {
    exists p :: p in t && t[p].id == id && Kept(node, t[p], bits)
  }

  lemma StepHasKept(ex: Export, fs: Fs, call: Call, id: nat, node: Node, bits: bool)
    requires Served(ex.root, fs) && HasKept(fs.tree, id, node, bits) && HasId(Step(ex, fs, call).tree, id)
    requires bits ==> !ChmodsId(ex, fs, call.request, id)
    ensures HasKept(Step(ex, fs, call).tree, id, node, bits)
  {
    hide Served, Step, Chmods;
    var p :| p in fs.tree && fs.tree[p].id == id && Kept(node, fs.tree[p], bits);
    var q :| q in Step(ex, fs, call).tree && Step(ex, fs, call).tree[q].id == id;
    StepKeepsNode(ex, fs, call, p, q);
  }

  // Over any run a surviving node keeps its kind and creation time; and its permission bits unless a
  // SetBasicInfo with a read-only value resolved to it.
  lemma {:induction false} RunKeepsNode(ex: Export, fs: Fs, calls: seq<Call>, id: nat, node: Node, bits: bool)
    requires Served(ex.root, fs) && HasKept(fs.tree, id, node, bits)
    requires HasId(Run(ex, fs, calls).tree, id)
    requires bits ==> !exists k: nat :: ChmodsAt(ex, fs, calls, id, k)
    ensures HasKept(Run(ex, fs, calls).tree, id, node, bits)
    decreases |calls|
  {
    hide Served, Step, ChmodsId;
    if calls != [] {
      var n := |calls| - 1;
      var front := calls[..n];
      var mid := Run(ex, fs, front);
      assert HasId(fs.tree, id);
      IdIsOld(ex.root, fs, id);
      RunNext(ex, fs, front);
      if !HasId(mid.tree, id) {
        GoneStaysGone(ex, mid, calls[n], id);
      }
      forall k: nat | bits && k < n ensures !ChmodsAt(ex, fs, front, id, k) {
        assert front[..k] == calls[..k];
        assert !ChmodsAt(ex, fs, calls, id, k);
      }
      RunKeepsNode(ex, fs, front, id, node, bits);
      assert !bits || !ChmodsAt(ex, fs, calls, id, n);
      StepHasKept(ex, mid, calls[n], id, node, bits);
    }
  }
}
