/** Laws that tie requests to each other: listings to lookups, reads to writes and resizes. */
module FileLaws {
  import opened Wrappers
  import opened Protocol
  import opened Paths
  import opened Names
  import opened FileTree
  import opened ServerSpec
  import opened ServerInvariant
  import opened Runs
  import opened Conservation

  // ---- Listing agrees with lookup ----

  function ChildString(path: string, name: string): string {
    if path == "" then name else path + "/" + name
  }

  lemma ChildStringNames(path: string, name: string)
    requires Normalize(path).Ok? && CleanName(name)
    ensures Normalize(ChildString(path, name)) == Ok(Normalize(path).value + [name])
  {
    NormalizeChild(path, name);
    if path == "" {
      NormalizeJoin([name]);
      NormalizeJoin([]);
      assert Join([name]) == name && Join([]) == "";
      assert [] + [name] == [name];
    }
  }

  lemma ListedNameIsClean(root: Path, fs: Fs, p: Path, name: string)
    requires Served(root, fs) && root <= p && Child(p, name) in fs.tree
    ensures CleanName(name)
  {
    var c := Child(p, name);
    assert root <= c && CleanPath(c[|root|..]);
    assert c[|root|..][|c| - |root| - 1] == name;
  }

  // A listing is in ascending order, and lists a clean name exactly when asking for it by path
  // succeeds, with the very attributes that answer gives.
  lemma ListingAgreesWithStat(root: Path, fs: Fs, path: string, name: string)
    requires Served(root, fs) && Sized(fs.tree)
    requires DoReadDir(root, fs.tree, path).Ok? && CleanName(name)
    ensures DoReadDir(root, fs.tree, path).value.DirEntries?
    ensures Ascending(NamesOf(DoReadDir(root, fs.tree, path).value.entries))
    ensures forall attr :: DirEntry(name, attr) in DoReadDir(root, fs.tree, path).value.entries <==>
                           DoStat(root, fs.tree, ChildString(path, name)) == Ok(Attr(attr))
  {
    ResolvedExists(root, fs, path);
    var p := ResolveExisting(root, fs.tree, path).value;
    var es := Listing(fs.tree, p);
    ListingIsTheOne(fs.tree, p, es);
    ChildStringNames(path, name);
    ResolvedExists(root, fs, ChildString(path, name));
    var c := Child(p, name);
    assert c == root + (Normalize(path).value + [name]);
    LookupFinds(fs, c);
    forall attr ensures DirEntry(name, attr) in es <==> DoStat(root, fs.tree, ChildString(path, name)) == Ok(Attr(attr)) {
      if DirEntry(name, attr) in es {
        var i :| 0 <= i < |es| && es[i] == DirEntry(name, attr);
        assert EntryAgrees(fs.tree, p, es[i]);
      } else if c in fs.tree {
        assert name in NamesOf(es);
        var i :| 0 <= i < |es| && NamesOf(es)[i] == name;
        assert EntryAgrees(fs.tree, p, es[i]);
        assert es[i] == DirEntry(name, AttrOf(fs.tree[c]));
      }
    }
  }

  // Entry by entry: an earlier one is smaller at the first position where the names differ, or a
  // proper prefix.
  lemma ListingInOrder(root: Path, fs: Fs, path: string, i: nat, j: nat)
    requires Served(root, fs) && Sized(fs.tree) && DoReadDir(root, fs.tree, path).Ok?
    ensures DoReadDir(root, fs.tree, path).value.DirEntries?
    ensures var es := DoReadDir(root, fs.tree, path).value.entries;
            i < j < |es| ==> Precedes(es[i].name, es[j].name)
  {
    ResolvedExists(root, fs, path);
    var p := ResolveExisting(root, fs.tree, path).value;
    var es := Listing(fs.tree, p);
    ListingIsTheOne(fs.tree, p, es);
    if i < j < |es| {
      assert LexLess(NamesOf(es)[i], NamesOf(es)[j]);
      LexIsPrecedes(es[i].name, es[j].name);
    }
  }

  // Every listed name is clean, so the law above covers the whole listing.
  lemma ListingIsClean(root: Path, fs: Fs, path: string)
    requires Served(root, fs) && Sized(fs.tree) && DoReadDir(root, fs.tree, path).Ok?
    ensures DoReadDir(root, fs.tree, path).value.DirEntries?
    ensures forall e :: e in DoReadDir(root, fs.tree, path).value.entries ==> CleanName(e.name)
  {
    ResolvedExists(root, fs, path);
    var p := ResolveExisting(root, fs.tree, path).value;
    var es := Listing(fs.tree, p);
    ListingIsTheOne(fs.tree, p, es);
    forall e | e in es ensures CleanName(e.name) {
      var i :| 0 <= i < |es| && es[i] == e;
      assert EntryAgrees(fs.tree, p, es[i]);
      ListedNameIsClean(root, fs, p, e.name);
    }
  }

  // Asking for "path/name" literally fails for the empty path: the joined string is absolute.
  lemma RootChildNeedsBareName(root: Path, t: Tree, name: string)
    requires Sized(t) && CleanName(name)
    ensures DoStat(root, t, "" + "/" + name) == Err(InvalidInput)
  {
    NormalizeJoin([]);
    NormalizeChild("", name);
  }

  // ---- Contents, byte by byte ----

  // The file after a write, described position by position.
  lemma SpliceAt(b: seq<byte>, at: nat, data: seq<byte>)
    ensures |Splice(b, at, data)| == if data != [] && at + |data| > |b| then at + |data| else |b|
    ensures forall i :: 0 <= i < |Splice(b, at, data)| ==>
              Splice(b, at, data)[i] == if at <= i < at + |data| then data[i - at] else if i < |b| then b[i] else 0
  {
  }

  datatype Edit =
    | Put(offset: nat, data: seq<byte>)
    | Append(data: seq<byte>)
    | Cut(size: nat)

  // Size and bytes after a history of edits, by looking back for the last edit that decided each.
  function SizeAfter(start: seq<byte>, edits: seq<Edit>): nat {
    if edits == [] then |start|
    else
      var before := SizeAfter(start, edits[..|edits| - 1]);
      match edits[|edits| - 1]
      case Put(offset, data) => if data != [] && offset + |data| > before then offset + |data| else before
      case Append(data) => before + |data|
      case Cut(size) => size
  }

  function ByteAfter(start: seq<byte>, edits: seq<Edit>, i: nat): byte {
    if edits == [] then if i < |start| then start[i] else 0
    else
      var front := edits[..|edits| - 1];
      match edits[|edits| - 1]
      case Put(offset, data) => if offset <= i < offset + |data| then data[i - offset] else ByteAfter(start, front, i)
      case Append(data) =>
        var end := SizeAfter(start, front);
        if end <= i < end + |data| then data[i - end] else ByteAfter(start, front, i)
      case Cut(size) => if i < size then ByteAfter(start, front, i) else 0
  }

  lemma {:induction false} NothingBeyondTheEnd(start: seq<byte>, edits: seq<Edit>, i: nat)
    requires i >= SizeAfter(start, edits)
    ensures ByteAfter(start, edits, i) == 0
  {
    if edits != [] {
      var front := edits[..|edits| - 1];
      if !edits[|edits| - 1].Cut? {
        NothingBeyondTheEnd(start, front, i);
      }
    }
  }

  // What a request does to the bytes of the file `id`: nothing, or one edit, which for a write is
  // the part that fits below the largest file size.
  ghost function EditsBy(ex: Export, fs: Fs, request: Request, id: nat): seq<Edit> {
    match request
    case Write(path, offset, data, eof) =>
      var r := ResolveExisting(ex.root, fs.tree, path);
      if r.Err? || fs.tree[r.value].DirNode? || fs.tree[r.value].id != id then []
      else if eof then [Append(data[..Room(|fs.tree[r.value].data|, |data|)])]
      else [Put(offset, data[..Room(offset, |data|)])]
    case SetLen(path, size, allocation) =>
      var r := ResolveExisting(ex.root, fs.tree, path);
      if r.Err? || fs.tree[r.value].DirNode? || fs.tree[r.value].id != id || allocation || size > MAX_FILE then []
      else [Cut(size)]
    case _ => []
  }

  // The edits a whole run makes to the file, wherever it is by then.
  ghost function History(ex: Export, fs: Fs, calls: seq<Call>, id: nat): seq<Edit>
    requires Served(ex.root, fs)
    decreases |calls|
  {
    if calls == [] then []
    else
      var front, last := calls[..|calls| - 1], calls[|calls| - 1];
      History(ex, fs, front, id) + EditsBy(ex, Run(ex, fs, front), last.request, id)
  }

  // The bytes the history leaves, each by looking back.
  function BytesAfter(start: seq<byte>, edits: seq<Edit>): seq<byte> {
    seq(SizeAfter(start, edits), i requires i >= 0 => ByteAfter(start, edits, i))
  }

  ghost predicate Holding(t: Tree, p: Path, data: seq<byte>) {
    p in t && t[p].FileNode? && t[p].data == data
  }

  function Applied(b: seq<byte>, edit: Edit): seq<byte> {
    match edit
    case Put(offset, data) => Splice(b, offset, data)
    case Append(data) => Splice(b, |b|, data)
    case Cut(size) => Resized(b, size)
  }

  lemma WriteStep(root: Path, fs: Fs, path: string, offset: u64, data: seq<byte>, eof: bool, env: Env, p: Path)
    requires Served(root, fs) && ResolveExisting(root, fs.tree, path) == Ok(p) && p in fs.tree && fs.tree[p].FileNode?
    ensures var b := fs.tree[p].data;
            var at := if eof then |b| else offset;
            var t' := DoWrite(root, fs, path, offset, data, eof, env).0.tree;
            Holding(t', p, Splice(b, at, data[..Room(at, |data|)])) && t'[p].id == fs.tree[p].id
  {
    ServedIsSized(root, fs);
    hide Served, WellFormed;
  }

  lemma SetLenStep(root: Path, fs: Fs, path: string, size: u64, env: Env, p: Path)
    requires Served(root, fs) && ResolveExisting(root, fs.tree, path) == Ok(p) && p in fs.tree && fs.tree[p].FileNode?
    ensures var t' := DoSetLen(root, fs, path, size, false, env).0.tree;
            Holding(t', p, if size > MAX_FILE then fs.tree[p].data else Resized(fs.tree[p].data, size)) && t'[p].id == fs.tree[p].id
  {
    ServedIsSized(root, fs);
    hide Served, WellFormed;
  }

  lemma EditStep(ex: Export, fs: Fs, call: Call, p: Path)
    requires Served(ex.root, fs) && p in fs.tree && fs.tree[p].FileNode? && Edits(ex, fs, call.request, p)
    ensures var edits := EditsBy(ex, fs, call.request, fs.tree[p].id);
            var t' := Step(ex, fs, call).tree;
            && |edits| <= 1 && p in t' && t'[p].id == fs.tree[p].id
            && Holding(t', p, if edits == [] then fs.tree[p].data else Applied(fs.tree[p].data, edits[0]))
  {
    hide Served, DoWrite, DoSetLen, Splice, Resized;
    match call.request {
      case Write(path, offset, data, eof) => WriteStep(ex.root, fs, path, offset, data, eof, call.env, p);
      case SetLen(path, size, _) => SetLenStep(ex.root, fs, path, size, call.env, p);
    }
  }

  // One request, whatever it is: a file still there afterwards has had the request's edit applied.
  lemma ContentStep(ex: Export, fs: Fs, call: Call, id: nat, b: seq<byte>)
    requires Served(ex.root, fs) && HasData(fs.tree, id, b) && HasId(Step(ex, fs, call).tree, id)
    ensures var edits := EditsBy(ex, fs, call.request, id);
            |edits| <= 1 && HasData(Step(ex, fs, call).tree, id, if edits == [] then b else Applied(b, edits[0]))
  {
    var p :| p in fs.tree && fs.tree[p].id == id && fs.tree[p].FileNode? && fs.tree[p].data == b;
    assert WellFormed(fs);
    hide Served, WellFormed, Step, Applied;
    if Edits(ex, fs, call.request, p) {
      EditStep(ex, fs, call, p);
    } else {
      NoEdits(ex, fs, call.request, p);
      StepKeepsData(ex, fs, call, id, b);
    }
  }

  lemma NoEdits(ex: Export, fs: Fs, request: Request, p: Path)
    requires Served(ex.root, fs) && p in fs.tree && !Edits(ex, fs, request, p)
    ensures !EditsId(ex, fs, request, fs.tree[p].id) && EditsBy(ex, fs, request, fs.tree[p].id) == []
  {
    forall q | q in fs.tree && fs.tree[q].id == fs.tree[p].id ensures q == p {
      SameId(fs, p, q);
    }
    if request.Write? || request.SetLen? {
      ResolvedExists(ex.root, fs, request.path);
    }
    hide Served, WellFormed, ResolveExisting;
  }

  // The last write to a position wins, gaps and extensions read as zero: a file that survives a
  // run, whatever else the run does, and wherever it moves the file, holds what looking back
  // through the edits made to it says.
  lemma {:induction false} ContentsAreHistory(ex: Export, fs: Fs, calls: seq<Call>, id: nat, start: seq<byte>)
    requires Served(ex.root, fs) && HasData(fs.tree, id, start) && HasId(Run(ex, fs, calls).tree, id)
    ensures HasData(Run(ex, fs, calls).tree, id, BytesAfter(start, History(ex, fs, calls, id)))
    decreases |calls|
  {
    hide Served, WellFormed, Step, HasData, HasId, EditsBy, Applied;
    if calls == [] {
      assert BytesAfter(start, []) == start;
    } else {
      var n := |calls| - 1;
      var front := calls[..n];
      var mid := Run(ex, fs, front);
      StillThere(ex, fs, calls, id, start);
      ContentsAreHistory(ex, fs, front, id, start);
      var edits := History(ex, fs, front, id);
      ContentStep(ex, mid, calls[n], id, BytesAfter(start, edits));
      var more := EditsBy(ex, mid, calls[n].request, id);
      if more == [] {
        assert edits + more == edits;
      } else {
        var all := edits + more;
        assert all[..|all| - 1] == edits && all[|all| - 1] == more[0];
        AppliedIsHistory(start, all, BytesAfter(start, edits));
      }
    }
  }

  // A node there at the end of a run was there all along.
  lemma StillThere(ex: Export, fs: Fs, calls: seq<Call>, id: nat, start: seq<byte>)
    requires Served(ex.root, fs) && calls != [] && HasData(fs.tree, id, start) && HasId(Run(ex, fs, calls).tree, id)
    ensures HasId(Run(ex, fs, calls[..|calls| - 1]).tree, id)
  {
    var front := calls[..|calls| - 1];
    DataHasId(fs.tree, id, start);
    IdIsOld(ex.root, fs, id);
    RunNext(ex, fs, front);
    if !HasId(Run(ex, fs, front).tree, id) {
      GoneStaysGone(ex, Run(ex, fs, front), calls[|calls| - 1], id);
    }
  }

  lemma AppliedIsHistory(start: seq<byte>, edits: seq<Edit>, before: seq<byte>)
    requires edits != []
    requires var front := edits[..|edits| - 1];
             |before| == SizeAfter(start, front) && forall i :: 0 <= i < |before| ==> before[i] == ByteAfter(start, front, i)
    ensures Applied(before, edits[|edits| - 1]) == BytesAfter(start, edits)
  {
    var front, edit := edits[..|edits| - 1], edits[|edits| - 1];
    var after := Applied(before, edit);
    forall i: nat | i >= |before| ensures ByteAfter(start, front, i) == 0 {
      NothingBeyondTheEnd(start, front, i);
    }
    if !edit.Cut? {
      SpliceAt(before, if edit.Put? then edit.offset else |before|, edit.data);
    }
    assert |after| == SizeAfter(start, edits);
    forall i | 0 <= i < |after| ensures after[i] == ByteAfter(start, edits, i) {
    }
  }

  // A read returns a prefix of the bytes from its offset on, and something whenever there is
  // something to return.
  lemma ReadsAreSlices(root: Path, fs: Fs, path: string, offset: u64, length: u32, env: Env, p: Path, data: seq<byte>)
    requires Served(root, fs) && ResolveExisting(root, fs.tree, path) == Ok(p) && Holding(fs.tree, p, data)
    ensures var r := DoRead(root, fs.tree, path, offset, length, env);
            && (r.Ok? <==> offset <= MAX_FILE)
            && (r.Err? ==> r.error == InvalidInput)
            && (r.Ok? ==> r.value.Data? && |r.value.bytes| <= length)
            && (r.Ok? && offset <= |data| ==> r.value.bytes <= data[offset..])
            && (r.Ok? ==> (r.value.bytes == [] <==> length == 0 || offset >= |data|))
  {
  }

  // ---- Once the root is gone ----

  // With the exported root removed, nothing is served any more and nothing changes.
  lemma NothingWithoutRoot(ex: Export, fs: Fs, request: Request, env: Env)
    requires Served(ex.root, fs) && ex.root !in fs.tree
    ensures Dispatch(ex, fs, request, env).0 == fs
    ensures Dispatch(ex, fs, request, env).1.Ok? <==> request == Flush(None)
  {
    hide WellFormed;
    NothingResolves(ex.root, fs);
  }

  lemma NothingResolves(root: Path, fs: Fs)
    requires Served(root, fs) && root !in fs.tree
    ensures forall path {:trigger ResolveExisting(root, fs.tree, path)} :: ResolveExisting(root, fs.tree, path).Err?
    ensures forall path {:trigger ResolveForNewPath(root, fs.tree, path)} :: ResolveForNewPath(root, fs.tree, path).Err?
    ensures Lookup(fs.tree, root).Err?
  {
    FreeMeansFree(fs, root);
    forall path: string ensures ResolveExisting(root, fs.tree, path).Err? {
      ResolvedExists(root, fs, path);
    }
    forall path: string ensures ResolveForNewPath(root, fs.tree, path).Err? {
      ResolvedNew(root, fs, path);
    }
  }
}
