/** Writing or resizing again after other requests: when it changes nothing, and when it does
    (write_file and set_len in crates/netfilum-server/src/server.rs). */
module Repeats {
  import opened Protocol
  import opened FileTree
  import opened ServerSpec
  import opened ServerInvariant
  import opened Runs
  import opened Conservation
  import opened FileLaws
  import opened ClientSpec
  import opened Handles
  import opened MountLaws
  import Undo

  // Going by paths alone, the request neither takes nor moves what the string names, nor edits it.
  predicate LeavesAlone(ex: Export, request: Request, name: string) {
    && !Touches(ex, request, name)
    && (request.Write? || (request.SetLen? && !request.setAllocationSize) ==>
          Place(ex, request.path).Err? || Place(ex, request.path) != Place(ex, name))
  }

  // The string names the file `id`, which holds the bytes.
  ghost predicate FileAt(ex: Export, fs: Fs, name: string, id: nat, data: seq<byte>) {
    LeadsIn(ex, fs.tree, Handle(name, File, false, id)) && Holding(fs.tree, Place(ex, name).value, data)
  }

  lemma LeftAloneIsUnedited(ex: Export, fs: Fs, request: Request, name: string, id: nat, data: seq<byte>)
    requires Served(ex.root, fs) && FileAt(ex, fs, name, id, data) && LeavesAlone(ex, request, name)
    ensures HasData(fs.tree, id, data) && !EditsId(ex, fs, request, id)
  {
    var p := Place(ex, name).value;
    forall q | q in fs.tree && fs.tree[q].id == id ensures q == p {
      SameId(fs, p, q);
    }
    if request.Write? || request.SetLen? {
      PlaceResolves(ex, fs, request.path);
    }
    hide Served, WellFormed, ResolveExisting, Place;
  }

  lemma HeldWhereLed(ex: Export, fs: Fs, name: string, id: nat, data: seq<byte>)
    requires Served(ex.root, fs) && LeadsIn(ex, fs.tree, Handle(name, File, false, id)) && HasData(fs.tree, id, data)
    ensures FileAt(ex, fs, name, id, data)
  {
    var q :| q in fs.tree && fs.tree[q].id == id && fs.tree[q].FileNode? && fs.tree[q].data == data;
    SameId(fs, q, Place(ex, name).value);
  }

  lemma StepLeavesAlone(ex: Export, fs: Fs, call: Call, name: string, id: nat, data: seq<byte>)
    requires Served(ex.root, fs) && FileAt(ex, fs, name, id, data) && LeavesAlone(ex, call.request, name)
    ensures FileAt(ex, Step(ex, fs, call), name, id, data)
  {
    hide Served, Dispatch, HasData, EditsId, Touches, Place;
    var fs' := Step(ex, fs, call);
    LeftAloneIsUnedited(ex, fs, call.request, name, id, data);
    TakenExactly(ex, fs, call.request, call.env, Handle(name, File, false, id));
    KeysKept(fs'.tree, fs'.tree, Place(ex, name).value);
    StepKeepsData(ex, fs, call, id, data);
    HeldWhereLed(ex, fs', name, id, data);
  }

  lemma {:induction false} RunLeavesAlone(ex: Export, fs: Fs, calls: seq<Call>, name: string, id: nat, data: seq<byte>)
    requires Served(ex.root, fs) && FileAt(ex, fs, name, id, data)
    requires forall k :: 0 <= k < |calls| ==> LeavesAlone(ex, calls[k].request, name)
    ensures FileAt(ex, Run(ex, fs, calls), name, id, data)
    decreases |calls|
  {
    hide Served, Step, FileAt, LeavesAlone;
    if calls != [] {
      var n := |calls| - 1;
      RunLeavesAlone(ex, fs, calls[..n], name, id, data);
      StepLeavesAlone(ex, Run(ex, fs, calls[..n]), calls[n], name, id, data);
    }
  }

  // The same error, or success with the same count of bytes and the same size.
  predicate SameOutcome(r: Reply, r': Reply) {
    match (r, r')
    case (Err(e), Err(e')) => e == e'
    case (Ok(Attr(attr)), Ok(Attr(attr'))) => attr.size == attr'.size
    case (Ok(WriteResult(n, attr)), Ok(WriteResult(n', attr'))) => n == n' && attr.size == attr'.size
    case _ => false
  }

  lemma WriteOnFile(ex: Export, fs: Fs, path: string, offset: u64, data: seq<byte>, env: Env)
    requires Served(ex.root, fs) && NamesFile(ex, fs, path)
    ensures var b := fs.tree[Place(ex, path).value].data;
            var id := fs.tree[Place(ex, path).value].id;
            var call := Call(Write(path, offset, data, false), env);
            var fs' := Step(ex, fs, call);
            var r := Dispatch(ex, fs, call.request, env).1;
            && FileAt(ex, fs', path, id, Splice(b, offset, data[..Room(offset, |data|)]))
            && SameElsewhere(fs.tree, fs'.tree, Place(ex, path).value)
            && (r.Err? ==> r.error == if offset > MAX_FILE then InvalidInput else Unexpected)
            && (r.Ok? ==> r.value.WriteResult? && r.value.written == |data| % TWO_32
                          && r.value.newAttr.size == |Splice(b, offset, data[..Room(offset, |data|)])|)
            && (r.Ok? <==> offset <= MAX_FILE && Room(offset, |data|) == |data|)
  {
    hide Served, WellFormed, Splice;
    PlaceResolves(ex, fs, path);
    ServedIsSized(ex.root, fs);
    WriteStep(ex.root, fs, path, offset, data, false, env, Place(ex, path).value);
  }

  // A write at an offset, repeated or run only then after any requests that by their paths leave
  // the file alone: the bytes stay, every other node stays, and the outcome is the same.
  lemma WriteAgainOverRuns(ex: Export, fs: Fs, path: string, offset: u64, data: seq<byte>, env: Env, calls: seq<Call>, env': Env)
    requires Served(ex.root, fs) && NamesFile(ex, fs, path)
    requires forall k :: 0 <= k < |calls| ==> LeavesAlone(ex, calls[k].request, path)
    ensures var write := Write(path, offset, data, false);
            var fs1 := Step(ex, fs, Call(write, env));
            var mid := Run(ex, fs1, calls);
            var fs2 := Step(ex, mid, Call(write, env'));
            && NamesFile(ex, fs1, path) && NamesFile(ex, mid, path) && NamesFile(ex, fs2, path)
            && fs2.tree[Place(ex, path).value].data == mid.tree[Place(ex, path).value].data == fs1.tree[Place(ex, path).value].data
            && fs2.tree[Place(ex, path).value].id == fs.tree[Place(ex, path).value].id
            && SameElsewhere(mid.tree, fs2.tree, Place(ex, path).value)
            && SameOutcome(Dispatch(ex, fs, write, env).1, Dispatch(ex, mid, write, env').1)
  {
    hide Served, Dispatch, Splice, LeavesAlone, SameElsewhere, Run, Step;
    var p := Place(ex, path).value;
    var b, part := fs.tree[p].data, data[..Room(offset, |data|)];
    var fs1 := Step(ex, fs, Call(Write(path, offset, data, false), env));
    WriteOnFile(ex, fs, path, offset, data, env);
    RunLeavesAlone(ex, fs1, calls, path, fs.tree[p].id, Splice(b, offset, part));
    WriteOnFile(ex, Run(ex, fs1, calls), path, offset, data, env');
    Undo.SpliceAgain(b, offset, part);
  }

  lemma ResizeOnFile(ex: Export, fs: Fs, path: string, size: u64, env: Env)
    requires Served(ex.root, fs) && NamesFile(ex, fs, path)
    ensures var b := fs.tree[Place(ex, path).value].data;
            var id := fs.tree[Place(ex, path).value].id;
            var call := Call(SetLen(path, size, false), env);
            var fs' := Step(ex, fs, call);
            var r := Dispatch(ex, fs, call.request, env).1;
            && FileAt(ex, fs', path, id, if size > MAX_FILE then b else Resized(b, size))
            && SameElsewhere(fs.tree, fs'.tree, Place(ex, path).value)
            && (r.Err? ==> r.error == InvalidInput)
            && (r.Ok? ==> r.value.Attr? && r.value.attr.size == size)
            && (r.Ok? <==> size <= MAX_FILE)
  {
    hide Served, WellFormed, Resized;
    PlaceResolves(ex, fs, path);
    ServedIsSized(ex.root, fs);
    SetLenStep(ex.root, fs, path, size, env, Place(ex, path).value);
  }

  // And so for a resize.
  lemma SetLenAgainOverRuns(ex: Export, fs: Fs, path: string, size: u64, env: Env, calls: seq<Call>, env': Env)
    requires Served(ex.root, fs) && NamesFile(ex, fs, path)
    requires forall k :: 0 <= k < |calls| ==> LeavesAlone(ex, calls[k].request, path)
    ensures var resize := SetLen(path, size, false);
            var fs1 := Step(ex, fs, Call(resize, env));
            var mid := Run(ex, fs1, calls);
            var fs2 := Step(ex, mid, Call(resize, env'));
            && NamesFile(ex, fs1, path) && NamesFile(ex, mid, path) && NamesFile(ex, fs2, path)
            && fs2.tree[Place(ex, path).value].data == mid.tree[Place(ex, path).value].data == fs1.tree[Place(ex, path).value].data
            && fs2.tree[Place(ex, path).value].id == fs.tree[Place(ex, path).value].id
            && SameElsewhere(mid.tree, fs2.tree, Place(ex, path).value)
            && SameOutcome(Dispatch(ex, fs, resize, env).1, Dispatch(ex, mid, resize, env').1)
  {
    hide Served, Dispatch, LeavesAlone, SameElsewhere, Run, Step;
    var p := Place(ex, path).value;
    var b := fs.tree[p].data;
    var after := if size > MAX_FILE then b else Resized(b, size);
    var fs1 := Step(ex, fs, Call(SetLen(path, size, false), env));
    ResizeOnFile(ex, fs, path, size, env);
    RunLeavesAlone(ex, fs1, calls, path, fs.tree[p].id, after);
    ResizeOnFile(ex, Run(ex, fs1, calls), path, size, env');
    assert size <= MAX_FILE ==> Resized(after, size) == after;
  }

  // ---- When it does not leave the bytes ----

  lemma SpliceIdleIff(b: seq<byte>, at: nat, data: seq<byte>)
    ensures Splice(b, at, data) == b <==> data == [] || (at + |data| <= |b| && b[at..at + |data|] == data)
  {
    SpliceAt(b, at, data);
    if Splice(b, at, data) == b && data != [] {
      assert forall i :: 0 <= i < |data| ==> b[at..at + |data|][i] == data[i];
    }
    if data != [] && at + |data| <= |b| && b[at..at + |data|] == data {
      assert forall i :: at <= i < at + |data| ==> b[i] == b[at..at + |data|][i - at];
      assert forall i :: 0 <= i < |b| ==> Splice(b, at, data)[i] == b[i];
    }
  }

  // On whatever disk it is run, first, again or late, a write at an offset leaves the bytes exactly
  // when the file has them already.
  lemma WriteIdleIff(ex: Export, fs: Fs, path: string, offset: u64, data: seq<byte>, env: Env)
    requires Served(ex.root, fs) && NamesFile(ex, fs, path)
    ensures var b := fs.tree[Place(ex, path).value].data;
            var part := data[..Room(offset, |data|)];
            var fs' := Step(ex, fs, Call(Write(path, offset, data, false), env));
            && NamesFile(ex, fs', path)
            && (fs'.tree[Place(ex, path).value].data == b <==>
                part == [] || (offset + |part| <= |b| && b[offset..offset + |part|] == part))
  {
    hide Served, Dispatch, Splice, Step;
    WriteOnFile(ex, fs, path, offset, data, env);
    SpliceIdleIff(fs.tree[Place(ex, path).value].data, offset, data[..Room(offset, |data|)]);
  }

  // So with another write of as many bytes in between, the repetition takes that one back: after
  // [1], [2] and [1] again at offset 0 the file holds [1], not [2].
  lemma RepetitionTakesBack(ex: Export, fs: Fs, path: string, offset: u64, data: seq<byte>, other: seq<byte>, env: Env)
    requires Served(ex.root, fs) && NamesFile(ex, fs, path)
    requires |other| == |data| && other != data && offset + |data| <= MAX_FILE
    ensures var first, between := Call(Write(path, offset, data, false), env), Call(Write(path, offset, other, false), env);
            var fs1 := Step(ex, fs, first);
            var fs2 := Step(ex, fs1, between);
            var fs3 := Step(ex, fs2, first);
            && NamesFile(ex, fs1, path) && NamesFile(ex, fs2, path) && NamesFile(ex, fs3, path)
            && fs2.tree[Place(ex, path).value].data != fs1.tree[Place(ex, path).value].data
            && fs3.tree[Place(ex, path).value].data == fs1.tree[Place(ex, path).value].data
  {
    hide Served, Dispatch, Step;
    var first, between := Call(Write(path, offset, data, false), env), Call(Write(path, offset, other, false), env);
    var b := fs.tree[Place(ex, path).value].data;
    assert data[..|data|] == data && other[..|other|] == other;
    WriteOnFile(ex, fs, path, offset, data, env);
    WriteOnFile(ex, Step(ex, fs, first), path, offset, other, env);
    WriteOnFile(ex, Step(ex, Step(ex, fs, first), between), path, offset, data, env);
    SpliceOver(b, offset, data, other);
  }

  lemma SpliceOver(b: seq<byte>, at: nat, data: seq<byte>, other: seq<byte>)
    requires |other| == |data| && other != data
    ensures Splice(Splice(b, at, data), at, other) != Splice(b, at, data)
    ensures Splice(Splice(Splice(b, at, data), at, other), at, data) == Splice(b, at, data)
  {
    var s := Splice(b, at, data);
    SpliceAt(b, at, data);
    SpliceAt(s, at, other);
    SpliceAt(Splice(s, at, other), at, data);
    var i :| 0 <= i < |data| && data[i] != other[i];
    assert s[at + i] == data[i] && Splice(s, at, other)[at + i] == other[i];
  }
}
