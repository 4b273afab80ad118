/** The served disk as a flat map from absolute paths to nodes, and what the file-system
    calls the server makes do to it. */
module FileTree {
  import opened Wrappers
  import opened Protocol
  import opened Paths

  type Perm = n: int | 0 <= n < 0x1000

  datatype Meta = Meta(
    perm: Perm,
    created: Option<FileTimeValue>,
    accessed: FileTimeValue,
    modified: FileTimeValue,
    changed: FileTimeValue)

  datatype Node =
    | DirNode(id: nat, meta: Meta)
    | FileNode(id: nat, data: seq<byte>, meta: Meta)

  type Tree = map<Path, Node>

  // `next` is the identity the next created node gets.
  datatype Fs = Fs(tree: Tree, next: nat)

  // Everything the operating system decides: the clock, the permission bits of a new node, how
  // much a read returns, and the capacity figures.
  datatype Env = Env(now: FileTimeValue, perm: Perm, short: nat, total: u64, free: u64)

  // The largest file and the largest cursor position: a signed 64-bit offset.
  const MAX_FILE: int := TWO_63 - 1

  ghost predicate WellFormed(fs: Fs) {
    && [] in fs.tree && fs.tree[[]].DirNode?
    && (forall p {:trigger Hangs(fs.tree, p)} :: p in fs.tree && p != [] ==> Hangs(fs.tree, p))
    && (forall p {:trigger fs.tree[p].id} :: p in fs.tree ==> fs.tree[p].id < fs.next)
    && (forall p {:trigger fs.tree[p].data} :: p in fs.tree && fs.tree[p].FileNode? ==> |fs.tree[p].data| <= MAX_FILE)
    && (forall p, q {:trigger fs.tree[p].id, fs.tree[q].id} ::
          p in fs.tree && q in fs.tree && fs.tree[p].id == fs.tree[q].id ==> p == q)
  }

  predicate Hangs(t: Tree, p: Path)
    requires p != []
  {
    && Parent(p) in t && t[Parent(p)].DirNode?
    && PlainName(Base(p))
  }

  predicate HasNul(p: Path) {
    exists i :: 0 <= i < |p| && '\0' in p[i]
  }

  // Walking to a path: a NUL is refused first, a file on the way is not a directory.
  function Lookup(t: Tree, p: Path): Result<Node, ErrorCode> {
    if HasNul(p) then Err(InvalidInput)
    else if p in t then Ok(t[p])
    else if exists k :: 0 <= k < |p| && p[..k] in t && t[p[..k]].FileNode? then Err(NotDirectory)
    else Err(NotFound)
  }

  function LookupDir(t: Tree, p: Path): Result<Node, ErrorCode> {
    var node :- Lookup(t, p);
    if node.DirNode? then Ok(node) else Err(NotDirectory)
  }

  predicate HasChild(t: Tree, p: Path) {
    exists q :: q in t && q != [] && Parent(q) == p
  }

  // ---- Tree surgery ----

  function Without(t: Tree, p: Path): Tree {
    map q | q in t && !(p <= q) :: t[q]
  }

  function MovedKeys(t: Tree, from: Path, to: Path): set<Path> {
    (set q | q in t && !(from <= q)) + (set q | q in t && from <= q :: to + q[|from|..])
  }

  // The subtree at `from` hung at `to`, which must be free and outside it.
  function Moved(t: Tree, from: Path, to: Path): Tree
    requires !(from <= to) && forall q :: q in t ==> !(to <= q)
  {
    map q | q in MovedKeys(t, from, to) ::
      if to <= q then assert Origin(from, to, q) in t by { MovedKeysMeaning(t, from, to, q); } t[Origin(from, to, q)]
      else t[q]
  }

  // Where the node now at `q`, at or below `to`, came from.
  function Origin(from: Path, to: Path, q: Path): Path
    requires to <= q
  {
    from + q[|to|..]
  }

  lemma MovedKeysMeaning(t: Tree, from: Path, to: Path, q: Path)
    requires !(from <= to) && forall q :: q in t ==> !(to <= q)
    ensures q in MovedKeys(t, from, to) <==>
            if to <= q then Origin(from, to, q) in t else q in t && !(from <= q)
  {
    if to <= q {
      var o := Origin(from, to, q);
      assert o[|from|..] == q[|to|..];
      assert to + o[|from|..] == q;
      if q in MovedKeys(t, from, to) {
        var r :| r in t && from <= r && q == to + r[|from|..];
        assert q[|to|..] == r[|from|..];
        assert o == r;
      }
    }
  }

  lemma MovedMeaning(t: Tree, from: Path, to: Path, q: Path)
    requires !(from <= to) && forall q :: q in t ==> !(to <= q)
    ensures q in Moved(t, from, to) <==>
            if to <= q then Origin(from, to, q) in t else q in t && !(from <= q)
    ensures q in Moved(t, from, to) ==>
            Moved(t, from, to)[q] == if to <= q then t[Origin(from, to, q)] else t[q]
  {
    MovedKeysMeaning(t, from, to, q);
  }

  // New bytes move the modification and change stamps.
  function PutData(fs: Fs, p: Path, data: seq<byte>, now: FileTimeValue): Fs
    requires p in fs.tree && fs.tree[p].FileNode?
  {
    fs.(tree := fs.tree[p := fs.tree[p].(data := data, meta := fs.tree[p].meta.(modified := now, changed := now))])
  }

  // Writing no bytes moves nothing.
  function PutSplice(fs: Fs, p: Path, at: nat, data: seq<byte>, now: FileTimeValue): Fs
    requires p in fs.tree && fs.tree[p].FileNode?
  {
    if data == [] then fs else PutData(fs, p, Splice(fs.tree[p].data, at, data), now)
  }

  function PutMeta(fs: Fs, p: Path, meta: Meta): Fs
    requires p in fs.tree
  {
    fs.(tree := fs.tree[p := fs.tree[p].(meta := meta)])
  }

  // ---- Bytes ----

  function Zeros(n: nat): (z: seq<byte>)
    ensures |z| == n
  {
    seq(n, _ => 0)
  }

  // Overwriting at a position, with a gap before it filled with zeros; writing nothing changes nothing.
  function Splice(b: seq<byte>, at: nat, data: seq<byte>): seq<byte> {
    if data == [] then b
    else if |b| < at then b + Zeros(at - |b|) + data
    else b[..at] + data + (if at + |data| < |b| then b[at + |data|..] else [])
  }

  function Resized(b: seq<byte>, size: nat): (r: seq<byte>)
    ensures |r| == size
  {
    if size <= |b| then b[..size] else b + Zeros(size - |b|)
  }

  // How many of `n` bytes fit below the largest file size from position `at`.
  function Room(at: nat, n: nat): nat {
    if at + n <= MAX_FILE then n else if at <= MAX_FILE then MAX_FILE - at else 0
  }

  function ReadCount(size: nat, at: nat, length: nat, short: nat): nat {
    var available := if at < size then size - at else 0;
    var wanted := if length < available then length else available;
    if wanted == 0 then 0 else if short == 0 then 1 else if short < wanted then short else wanted
  }

  // ---- Permission bits and stamps ----

  predicate IsReadonly(perm: Perm) {
    perm / 0x80 % 2 == 0 && perm / 0x10 % 2 == 0 && perm / 2 % 2 == 0
  }

  // Setting clears 0o222; clearing sets the owner's 0o200 only.
  function WithReadonly(perm: Perm, readonly: bool): Perm {
    if readonly then
      perm - 0x80 * (perm / 0x80 % 2) - 0x10 * (perm / 0x10 % 2) - 2 * (perm / 2 % 2)
    else
      perm + 0x80 * (1 - perm / 0x80 % 2)
  }

  const NANOS_PER_SEC := 1_000_000_000
  const UTIME_NOW := 0x3fff_ffff
  const UTIME_OMIT := 0x3fff_fffe

  predicate StampAllowed(v: FileTimeValue) {
    v.nanos < NANOS_PER_SEC || v.nanos == UTIME_NOW || v.nanos == UTIME_OMIT
  }

  function Stamp(stored: FileTimeValue, v: FileTimeValue, now: FileTimeValue): FileTimeValue {
    if v.nanos == UTIME_OMIT then stored else if v.nanos == UTIME_NOW then now else v
  }

  // chmod
  function Chmodded(meta: Meta, perm: Perm, now: FileTimeValue): Meta {
    meta.(perm := perm, changed := now)
  }

  // utimensat: asked to omit both stamps it does nothing at all
  function Stamped(meta: Meta, atime: FileTimeValue, mtime: FileTimeValue, now: FileTimeValue): Meta {
    if atime.nanos == UTIME_OMIT && mtime.nanos == UTIME_OMIT then meta
    else meta.(accessed := Stamp(meta.accessed, atime, now), modified := Stamp(meta.modified, mtime, now), changed := now)
  }

  // ---- The calls ----

  function NewNode(kind: EntryKind, id: nat, env: Env): Node {
    var meta := Meta(env.perm, Some(env.now), env.now, env.now, env.now);
    match kind
    case File => FileNode(id, [], meta)
    case Directory => DirNode(id, meta)
  }

  // open with create_new, and mkdir
  function OsCreate(fs: Fs, p: Path, kind: EntryKind, env: Env): (Fs, Result<(), ErrorCode>)
    requires p != []
  {
    var parent := LookupDir(fs.tree, Parent(p));
    if HasNul(p) then (fs, Err(InvalidInput))
    else if parent.Err? then (fs, Err(parent.error))
    else if p in fs.tree then (fs, Err(AlreadyExists))
    else (Fs(fs.tree[p := NewNode(kind, fs.next, env)], fs.next + 1), Ok(()))
  }

  function OsRemoveFile(fs: Fs, p: Path): (Fs, Result<(), ErrorCode>) {
    var found := Lookup(fs.tree, p);
    if found.Err? then (fs, Err(found.error))
    else if found.value.DirNode? then (fs, Err(IsDirectory))
    else (fs.(tree := Without(fs.tree, p)), Ok(()))
  }

  function OsRemoveDir(fs: Fs, p: Path): (Fs, Result<(), ErrorCode>)
    requires p != []
  {
    var found := LookupDir(fs.tree, p);
    if found.Err? then (fs, Err(found.error))
    else if HasChild(fs.tree, p) then (fs, Err(DirectoryNotEmpty))
    else (fs.(tree := Without(fs.tree, p)), Ok(()))
  }

  // rename(2) onto a path where nothing is
  function OsRename(fs: Fs, from: Path, to: Path): (Fs, Result<(), ErrorCode>)
    requires from != [] && to != []
    requires forall q :: q in fs.tree ==> !(to <= q)
  {
    var fromDir := LookupDir(fs.tree, Parent(from));
    var toDir := LookupDir(fs.tree, Parent(to));
    if HasNul(from) || HasNul(to) then (fs, Err(InvalidInput))
    else if fromDir.Err? then (fs, Err(fromDir.error))
    else if toDir.Err? then (fs, Err(toDir.error))
    else if from !in fs.tree then (fs, Err(NotFound))
    else if from <= to then (fs, Err(InvalidInput))
    else (fs.(tree := Moved(fs.tree, from, to)), Ok(()))
  }

  // ---- Facts about well-formed trees ----

  lemma {:induction false} PrefixPresent(fs: Fs, p: Path, k: nat)
    requires WellFormed(fs) && p in fs.tree && k <= |p|
    ensures p[..k] in fs.tree
    ensures k < |p| ==> fs.tree[p[..k]].DirNode?
    decreases |p| - k
  {
    if k < |p| {
      PrefixPresent(fs, p, k + 1);
      assert Hangs(fs.tree, p[..k + 1]);
      assert Parent(p[..k + 1]) == p[..k];
    } else {
      assert p[..k] == p;
    }
  }

  lemma AncestorPresent(fs: Fs, a: Path, p: Path)
    requires WellFormed(fs) && p in fs.tree && a <= p
    ensures a in fs.tree && (a < p ==> fs.tree[a].DirNode?)
  {
    PrefixPresent(fs, p, |a|);
    assert p[..|a|] == a;
  }

  lemma NamesArePlain(fs: Fs, p: Path)
    requires WellFormed(fs) && p in fs.tree
    ensures forall i :: 0 <= i < |p| ==> PlainName(p[i])
    ensures !HasNul(p)
  {
    forall i | 0 <= i < |p| ensures PlainName(p[i]) {
      PrefixPresent(fs, p, i + 1);
      assert Hangs(fs.tree, p[..i + 1]);
      assert Base(p[..i + 1]) == p[i];
    }
  }

  // In a well-formed tree a lookup succeeds exactly on the paths that are there.
  lemma LookupFinds(fs: Fs, p: Path)
    requires WellFormed(fs)
    ensures Lookup(fs.tree, p).Ok? <==> p in fs.tree
    ensures p in fs.tree ==> Lookup(fs.tree, p) == Ok(fs.tree[p])
  {
    if p in fs.tree {
      NamesArePlain(fs, p);
    }
  }

  lemma WalkStopsAtFile(fs: Fs, p: Path, i: nat)
    requires WellFormed(fs) && i < |p| && !HasNul(p)
    requires p[..i] in fs.tree && fs.tree[p[..i]].FileNode?
    ensures Lookup(fs.tree, p) == Err(NotDirectory)
  {
    if p in fs.tree {
      PrefixPresent(fs, p, i);
    }
  }

  lemma TakeIsPrefix(p: Path, i: nat, k: nat)
    requires i <= k <= |p|
    ensures p[..i] <= p[..k]
  {
    assert p[..i] == p[..k][..i];
  }

  lemma WalkStopsAtGap(fs: Fs, p: Path, i: nat)
    requires WellFormed(fs) && i < |p| && !HasNul(p)
    requires p[..i] in fs.tree && fs.tree[p[..i]].DirNode? && p[..i + 1] !in fs.tree
    ensures Lookup(fs.tree, p) == Err(NotFound)
  {
    FreeMeansFree(fs, p[..i + 1]);
    assert p[..i + 1] <= p;
    forall k | 0 <= k < |p| && p[..k] in fs.tree ensures fs.tree[p[..k]].DirNode? {
      if k < i {
        PrefixPresent(fs, p[..i], k);
        assert p[..i][..k] == p[..k];
      } else if k > i {
        TakeIsPrefix(p, i + 1, k);
      }
    }
  }

  lemma FreeMeansFree(fs: Fs, p: Path)
    requires WellFormed(fs) && p !in fs.tree
    ensures forall q :: q in fs.tree ==> !(p <= q)
  {
    forall q | q in fs.tree ensures !(p <= q) {
      if p <= q {
        AncestorPresent(fs, p, q);
      }
    }
  }

  // Only a directory with children has anything below it.
  lemma BelowNeedsChild(fs: Fs, p: Path, q: Path)
    requires WellFormed(fs) && q in fs.tree && p < q
    ensures p in fs.tree && fs.tree[p].DirNode? && HasChild(fs.tree, p)
  {
    AncestorPresent(fs, p, q);
    PrefixPresent(fs, q, |p| + 1);
    var c := q[..|p| + 1];
    assert Parent(c) == p;
  }

  lemma PrefixOfParent(p: Path, q: Path)
    requires q != []
    ensures p <= q <==> p == q || p <= Parent(q)
  {
    if p <= q && p != q {
      assert p == q[..|p|] == Parent(q)[..|p|];
    }
  }

  lemma WithoutKeepsForm(fs: Fs, p: Path)
    requires WellFormed(fs) && p != []
    ensures WellFormed(fs.(tree := Without(fs.tree, p)))
  {
    var t := Without(fs.tree, p);
    forall q | q in t && q != [] ensures Hangs(t, q) {
      assert Hangs(fs.tree, q);
      PrefixOfParent(p, q);
    }
  }

  lemma AddKeepsForm(fs: Fs, p: Path, kind: EntryKind, env: Env)
    requires WellFormed(fs) && p != [] && p !in fs.tree && !HasNul(p)
    requires Parent(p) in fs.tree && fs.tree[Parent(p)].DirNode?
    requires PlainName(Base(p))
    ensures WellFormed(Fs(fs.tree[p := NewNode(kind, fs.next, env)], fs.next + 1))
  {
    var t := fs.tree[p := NewNode(kind, fs.next, env)];
    forall q | q in t && q != [] ensures Hangs(t, q) {
      if q != p {
        assert Hangs(fs.tree, q);
        assert Parent(q) in fs.tree;
      }
    }
  }

  lemma OriginStep(from: Path, to: Path, q: Path)
    requires to < q
    ensures to <= Parent(q)
    ensures Origin(from, to, q) != []
    ensures Parent(Origin(from, to, q)) == Origin(from, to, Parent(q))
    ensures Base(Origin(from, to, q)) == Base(q)
  {
  }

  lemma MovedHangs(fs: Fs, from: Path, to: Path, q: Path)
    requires WellFormed(fs) && from in fs.tree && from != [] && to != []
    requires !(from <= to) && forall q :: q in fs.tree ==> !(to <= q)
    requires Parent(to) in fs.tree && fs.tree[Parent(to)].DirNode? && PlainName(Base(to))
    requires q in Moved(fs.tree, from, to) && q != []
    ensures Hangs(Moved(fs.tree, from, to), q)
  {
    var t := fs.tree;
    MovedMeaning(t, from, to, q);
    MovedMeaning(t, from, to, Parent(q));
    if q == to {
      PrefixOfParent(from, q);
    } else if to <= q {
      OriginStep(from, to, q);
      assert Hangs(t, Origin(from, to, q));
    } else {
      PrefixOfParent(to, q);
      PrefixOfParent(from, q);
      assert Hangs(t, q);
    }
  }

  lemma MovedIsInjective(t: Tree, from: Path, to: Path, p: Path, q: Path)
    requires !(from <= to) && forall q :: q in t ==> !(to <= q)
    requires forall p, q :: p in t && q in t && t[p].id == t[q].id ==> p == q
    requires p in Moved(t, from, to) && q in Moved(t, from, to)
    requires Moved(t, from, to)[p].id == Moved(t, from, to)[q].id
    ensures p == q
  {
    MovedMeaning(t, from, to, p);
    MovedMeaning(t, from, to, q);
    var p0 := if to <= p then Origin(from, to, p) else p;
    var q0 := if to <= q then Origin(from, to, q) else q;
    assert p0 == q0;
    assert (to <= p) == (from <= p0) && (to <= q) == (from <= q0);
    if to <= p {
      assert p == to + p0[|from|..] && q == to + q0[|from|..];
    }
  }

  lemma MovedKeepsForm(fs: Fs, from: Path, to: Path)
    requires WellFormed(fs) && from in fs.tree && from != [] && to != []
    requires !(from <= to) && forall q :: q in fs.tree ==> !(to <= q)
    requires Parent(to) in fs.tree && fs.tree[Parent(to)].DirNode? && PlainName(Base(to))
    ensures WellFormed(fs.(tree := Moved(fs.tree, from, to)))
  {
    var t' := Moved(fs.tree, from, to);
    forall q | q in t' && q != [] ensures Hangs(t', q) {
      MovedHangs(fs, from, to, q);
    }
    forall q | q in t' ensures t'[q].id < fs.next && (t'[q].FileNode? ==> |t'[q].data| <= MAX_FILE) {
      MovedMeaning(fs.tree, from, to, q);
    }
    forall p, q | p in t' && q in t' && t'[p].id == t'[q].id ensures p == q {
      MovedIsInjective(fs.tree, from, to, p, q);
    }
    MovedMeaning(fs.tree, from, to, []);
  }

  // Replacing a node by one of the same identity and kind.
  lemma PutKeepsForm(fs: Fs, p: Path, node: Node)
    requires WellFormed(fs) && p in fs.tree
    requires node.id == fs.tree[p].id && node.DirNode? == fs.tree[p].DirNode?
    requires node.FileNode? ==> |node.data| <= MAX_FILE
    ensures WellFormed(fs.(tree := fs.tree[p := node]))
  {
    var t := fs.tree[p := node];
    forall q | q in t && q != [] ensures Hangs(t, q) {
      assert Hangs(fs.tree, q);
    }
  }

  lemma RenameKeepsForm(fs: Fs, from: Path, to: Path)
    requires WellFormed(fs) && from != [] && to != []
    requires forall q :: q in fs.tree ==> !(to <= q)
    requires PlainName(Base(to)) || HasNul(to)
    ensures WellFormed(OsRename(fs, from, to).0)
  {
    if OsRename(fs, from, to).1.Ok? {
      LookupFinds(fs, Parent(to));
      MovedKeepsForm(fs, from, to);
    }
  }

  lemma SpliceFits(b: seq<byte>, at: nat, data: seq<byte>)
    requires |b| <= MAX_FILE && (data == [] || at + |data| <= MAX_FILE)
    ensures |Splice(b, at, data)| <= MAX_FILE
  {
  }

  // What stays before and after a splice.
  function UpTo(b: seq<byte>, at: nat): (r: seq<byte>)
    ensures |r| == at
  {
    if |b| < at then b + Zeros(at - |b|) else b[..at]
  }

  function Onward(b: seq<byte>, at: nat): seq<byte> {
    if at < |b| then b[at..] else []
  }

  lemma SpliceParts(b: seq<byte>, at: nat, data: seq<byte>)
    requires data != []
    ensures Splice(b, at, data) == UpTo(b, at) + data + Onward(b, at + |data|)
  {
    if |b| < at {
      assert b + Zeros(at - |b|) + data + [] == b + Zeros(at - |b|) + data;
    }
  }

  lemma AfterParts(front: seq<byte>, b: seq<byte>, at: nat, n: nat)
    requires |front| == at
    ensures UpTo(front + Onward(b, at), at) == front
    ensures Onward(front + Onward(b, at), at + n) == Onward(b, at + n)
  {
    if at + n < |b| {
      assert (front + b[at..])[at + n..] == b[at + n..];
    }
  }

  lemma SpliceSplice(b: seq<byte>, at: nat, x: seq<byte>, y: seq<byte>)
    ensures Splice(Splice(b, at, x), at + |x|, y) == Splice(b, at, x + y)
  {
    if x == [] {
      assert x + y == y;
    } else if y == [] {
      assert x + y == x;
    } else {
      hide Splice, UpTo, Onward;
      SpliceParts(b, at, x);
      SpliceParts(Splice(b, at, x), at + |x|, y);
      SpliceParts(b, at, x + y);
      AfterParts(UpTo(b, at) + x, b, at + |x|, |y|);
      assert (UpTo(b, at) + x) + y == UpTo(b, at) + (x + y);
    }
  }

  lemma PutSpliceSplice(fs: Fs, p: Path, at: nat, x: seq<byte>, y: seq<byte>, now: FileTimeValue)
    requires p in fs.tree && fs.tree[p].FileNode?
    ensures var fs' := PutSplice(fs, p, at, x, now);
            && p in fs'.tree && fs'.tree[p].FileNode?
            && PutSplice(fs', p, at + |x|, y, now) == PutSplice(fs, p, at, x + y, now)
  {
    SpliceSplice(fs.tree[p].data, at, x, y);
    if x == [] {
      assert x + y == y;
    } else if y == [] {
      assert x + y == x;
    }
    hide Splice;
  }
}
