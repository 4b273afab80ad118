/** Stamps stay in order over any run, so what the mount sets can be read back after any run
    (set_basic_info in crates/netfilum-server/src/server.rs and crates/netfilum-client/src/mount.rs). */
module StampLaws {
  import opened Wrappers
  import opened Protocol
  import opened Paths
  import opened FileTree
  import opened ServerSpec
  import opened ServerInvariant
  import opened Runs
  import opened Conservation
  import opened ClientSpec
  import opened MountLaws

  ghost predicate AllProper(t: Tree) {
    forall p :: p in t ==> ProperStamps(t[p].meta)
  }

  predicate ClockProper(env: Env) {
    env.now.nanos < NANOS_PER_SEC
  }

  lemma CreateKeepsProper(root: Path, fs: Fs, path: string, kind: EntryKind, env: Env)
    requires Served(root, fs) && Sized(fs.tree) && AllProper(fs.tree) && ClockProper(env)
    ensures AllProper(DoCreate(root, fs, path, kind, env).0.tree)
  {
    hide WellFormed;
  }

  lemma WriteKeepsProper(root: Path, fs: Fs, path: string, offset: u64, data: seq<byte>, eof: bool, env: Env)
    requires Served(root, fs) && Sized(fs.tree) && AllProper(fs.tree) && ClockProper(env)
    ensures AllProper(DoWrite(root, fs, path, offset, data, eof, env).0.tree)
  {
    hide WellFormed, Splice;
    ResolvedExists(root, fs, path);
  }

  lemma SetLenKeepsProper(root: Path, fs: Fs, path: string, size: u64, allocation: bool, env: Env)
    requires Served(root, fs) && Sized(fs.tree) && AllProper(fs.tree) && ClockProper(env)
    ensures AllProper(DoSetLen(root, fs, path, size, allocation, env).0.tree)
  {
    hide WellFormed, Resized;
    ResolvedExists(root, fs, path);
  }

  // Whatever nanoseconds are asked for: more than a second's worth are refused, or stand for the
  // present or for what is stored.
  lemma SetBasicInfoKeepsProper(root: Path, fs: Fs, path: string, update: BasicInfoUpdate, env: Env)
    requires Served(root, fs) && Sized(fs.tree) && AllProper(fs.tree) && ClockProper(env)
    ensures AllProper(DoSetBasicInfo(root, fs, path, update, env).0.tree)
  {
    hide WellFormed, WithReadonly;
    ResolvedExists(root, fs, path);
  }

  lemma StepKeepsProper(ex: Export, fs: Fs, call: Call)
    requires Served(ex.root, fs) && AllProper(fs.tree) && ClockProper(call.env)
    ensures AllProper(Step(ex, fs, call).tree)
  {
    hide Served, AllProper, DoCreate, DoWrite, DoSetLen, DoSetBasicInfo, DoRename, DoRemoveFile, DoRemoveDir;
    ServedIsSized(ex.root, fs);
    match call.request {
      case Create(path, kind, _, _) => CreateKeepsProper(ex.root, fs, path, kind, call.env);
      case Write(path, offset, data, eof) => WriteKeepsProper(ex.root, fs, path, offset, data, eof, call.env);
      case SetLen(path, size, allocation) => SetLenKeepsProper(ex.root, fs, path, size, allocation, call.env);
      case SetBasicInfo(path, update) => SetBasicInfoKeepsProper(ex.root, fs, path, update, call.env);
      case Rename(path, newPath, replace) => RenameKeepsProper(ex.root, fs, path, newPath, replace);
      case RemoveFile(_) => RemovalKeepsProper(ex, fs, call);
      case RemoveDir(_) => RemovalKeepsProper(ex, fs, call);
      case _ =>
    }
  }

  lemma RenameKeepsProper(root: Path, fs: Fs, path: string, newPath: string, replace: bool)
    requires Served(root, fs) && AllProper(fs.tree)
    ensures AllProper(DoRename(root, fs, path, newPath, replace).0.tree)
  {
    hide DoRename;
    var t' := DoRename(root, fs, path, newPath, replace).0.tree;
    forall q | q in t' ensures ProperStamps(t'[q].meta) {
      var q0 := RenameNodes(root, fs, path, newPath, replace, q);
    }
  }

  lemma RemovalKeepsProper(ex: Export, fs: Fs, call: Call)
    requires Served(ex.root, fs) && AllProper(fs.tree) && (call.request.RemoveFile? || call.request.RemoveDir?)
    ensures AllProper(Step(ex, fs, call).tree)
  {
    hide Step, Served;
    var t' := Step(ex, fs, call).tree;
    forall q | q in t' ensures ProperStamps(t'[q].meta) {
      RemovalKeepsNodes(ex, fs, call, q);
    }
  }

  // Every request, whatever times it asks for, keeps the stamps in order.
  lemma {:induction false} RunKeepsProper(ex: Export, fs: Fs, calls: seq<Call>)
    requires Served(ex.root, fs) && AllProper(fs.tree)
    requires forall k :: 0 <= k < |calls| ==> ClockProper(calls[k].env)
    ensures AllProper(Run(ex, fs, calls).tree)
    decreases |calls|
  {
    hide Served, Step, AllProper;
    if calls != [] {
      var n := |calls| - 1;
      RunKeepsProper(ex, fs, calls[..n]);
      StepKeepsProper(ex, Run(ex, fs, calls[..n]), calls[n]);
    }
  }

  // After any run the times and the read-only state the mount sets take, and come back when read.
  lemma TimesAfterAnyRun(ex: Export, fs0: Fs, calls: seq<Call>, path: string, attributes: u32, creation: u64, access: u64, write: u64, change: u64, env: Env, p: Path)
    requires Served(ex.root, fs0) && AllProper(fs0.tree)
    requires (forall k :: 0 <= k < |calls| ==> ClockProper(calls[k].env)) && ClockProper(env)
    requires ResolveExisting(ex.root, Run(ex, fs0, calls).tree, path) == Ok(p)
    ensures var fs := Run(ex, fs0, calls);
            var (fs', r) := Dispatch(ex, fs, Request.SetBasicInfo(path, BasicUpdate(attributes, creation, access, write, change)), env);
            && p in fs.tree && p in fs'.tree && SizeOf(fs'.tree[p]) <= MAX_FILE && r == Ok(Attr(AttrOf(fs'.tree[p])))
            && TimesTook(fs.tree[p].meta, fs'.tree[p], attributes, access, write, env.now)
  {
    hide Served, DoSetBasicInfo, TimesTook, Run;
    var fs := Run(ex, fs0, calls);
    RunKeepsProper(ex, fs0, calls);
    ResolvedExists(ex.root, fs, path);
    ServedIsSized(ex.root, fs);
    TimesEndToEnd(ex.root, fs, path, attributes, creation, access, write, change, env, p);
  }
}
