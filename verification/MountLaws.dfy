/** Laws of the mount end to end: times set and read back, and constrained writes. */
module MountLaws {
  import opened Wrappers
  import opened Protocol
  import opened Paths
  import opened FileTree
  import opened ServerSpec
  import opened ServerInvariant
  import opened Runs
  import opened FileLaws
  import opened FileTimes
  import opened ClientSpec
  import opened Handles

  // ---- Times ----

  const UNIX_EPOCH_TICKS := WINDOWS_EPOCH_OFFSET_SECS * WINDOWS_TICKS_PER_SECOND

  // The tick counts that leave the stored time as it is: absent, never, or before 1970.
  predicate LeavesTime(ticks: u64) {
    ticks == 0 || ticks == NEVER || ticks < UNIX_EPOCH_TICKS
  }

  predicate AsksNothing(ticks: u64) {
    ticks == 0 || ticks == NEVER
  }

  predicate ProperStamps(meta: Meta) {
    meta.accessed.nanos < NANOS_PER_SEC && meta.modified.nanos < NANOS_PER_SEC
  }

  lemma AskedTime(ticks: u64, stored: FileTimeValue, now: FileTimeValue)
    requires stored.nanos < NANOS_PER_SEC && now.nanos < NANOS_PER_SEC
    ensures var t := NextTime(WireTimeFromWindows(ticks), CurrentTime(stored, now));
            && t.nanos < NANOS_PER_SEC
            && (!LeavesTime(ticks) ==> WindowsTimeFromWire(SystemTimeToWire(Some(t))) == ticks)
            && (LeavesTime(ticks) && stored.secs >= 0 ==> t == stored)
    ensures LeavesTime(ticks) <==> WireTimeFromWindows(ticks).None? || WireTimeFromWindows(ticks).value.secs < 0
    ensures AsksNothing(ticks) <==> WireTimeFromWindows(ticks).None?
  {
    TicksRoundTrip(ticks);
  }

  // What the request leaves of the node's attributes when the stamps are in order.
  function MetaAfter(meta: Meta, update: BasicInfoUpdate, now: FileTimeValue): Meta {
    var m := AfterReadonly(meta, update.readonly, now);
    if update.lastAccessTime.None? && update.lastWriteTime.None? then m
    else m.(accessed := NextTime(update.lastAccessTime, CurrentTime(meta.accessed, now)),
            modified := NextTime(update.lastWriteTime, CurrentTime(meta.modified, now)),
            changed := now)
  }

  lemma BasicInfoStores(root: Path, fs: Fs, path: string, update: BasicInfoUpdate, env: Env, p: Path)
    requires ResolveExisting(root, fs.tree, path) == Ok(p) && p in fs.tree && Sized(fs.tree)
    requires var meta := fs.tree[p].meta;
             var atime := NextTime(update.lastAccessTime, CurrentTime(meta.accessed, env.now));
             var mtime := NextTime(update.lastWriteTime, CurrentTime(meta.modified, env.now));
             atime.nanos < NANOS_PER_SEC && mtime.nanos < NANOS_PER_SEC
    ensures var (fs', r) := DoSetBasicInfo(root, fs, path, update, env);
            && fs' == PutMeta(fs, p, MetaAfter(fs.tree[p].meta, update, env.now))
            && r == Ok(Attr(AttrOf(fs'.tree[p])))
  {
    assert !HasNul(p);
    hide WithReadonly, IsReadonly, NextTime, CurrentTime;
    var m1 := AfterReadonly(fs.tree[p].meta, update.readonly, env.now);
    var fs1 := PutMeta(fs, p, m1);
    assert forall meta: Meta :: PutMeta(fs1, p, meta) == PutMeta(fs, p, meta);
  }

  // What reading back says about a node whose attributes were `before` when the mount set them.
  predicate TimesTook(before: Meta, node: Node, attributes: u32, access: u64, write: u64, now: FileTimeValue)
    requires SizeOf(node) <= MAX_FILE
  {
    var info := InfoOf(AttrOf(node));
    && (!LeavesTime(access) ==> info.lastAccessTime == access)
    && (!LeavesTime(write) ==> info.lastWriteTime == write)
    && (LeavesTime(access) && before.accessed.secs >= 0 ==> node.meta.accessed == before.accessed)
    && (LeavesTime(write) && before.modified.secs >= 0 ==> node.meta.modified == before.modified)
    && node.meta.created == before.created
    && node.meta.changed == (if attributes == INVALID_FILE_ATTRIBUTES && AsksNothing(access) && AsksNothing(write) then before.changed else now)
    && (attributes != INVALID_FILE_ATTRIBUTES ==> (info.fileAttributes % 2 == 1 <==> attributes % 2 == 1))
    && (attributes == INVALID_FILE_ATTRIBUTES ==> node.meta.perm == before.perm)
  }

  lemma AttributeBit(node: Node)
    requires SizeOf(node) <= MAX_FILE
    ensures FileAttributesFromAttr(AttrOf(node)) % 2 == 1 <==> IsReadonly(node.meta.perm)
  {
    hide IsReadonly;
  }

  lemma MetaTook(before: Meta, node: Node, attributes: u32, creation: u64, access: u64, write: u64, change: u64, now: FileTimeValue)
    requires SizeOf(node) <= MAX_FILE && ProperStamps(before) && now.nanos < NANOS_PER_SEC
    requires node.meta == MetaAfter(before, BasicUpdate(attributes, creation, access, write, change), now)
    ensures TimesTook(before, node, attributes, access, write, now)
  {
    AskedTime(access, before.accessed, now);
    AskedTime(write, before.modified, now);
    ReadonlyTakes(before.perm, true);
    ReadonlyTakes(before.perm, false);
    AttributeBit(node);
    hide FileAttributesFromAttr, BlocksOf, ModeOf;
    hide WireTimeFromWindows, WindowsTimeFromWire, IsReadonly, WithReadonly, CurrentTime, OtherBits;
  }

  // Setting attributes and times through the mount and reading the information back: a time from
  // 1970 on comes back tick for tick, any other leaves a stored time from 1970 on untouched, and
  // so does the other of the two times; the read-only attribute comes back as asked. The change
  // stamp moves exactly when anything was asked for.
  lemma TimesEndToEnd(root: Path, fs: Fs, path: string, attributes: u32, creation: u64, access: u64, write: u64, change: u64, env: Env, p: Path)
    requires ResolveExisting(root, fs.tree, path) == Ok(p) && p in fs.tree && Sized(fs.tree)
    requires ProperStamps(fs.tree[p].meta) && env.now.nanos < NANOS_PER_SEC
    ensures var update := BasicUpdate(attributes, creation, access, write, change);
            var (fs', r) := DoSetBasicInfo(root, fs, path, update, env);
            && p in fs'.tree && SizeOf(fs'.tree[p]) <= MAX_FILE && r == Ok(Attr(AttrOf(fs'.tree[p])))
            && TimesTook(fs.tree[p].meta, fs'.tree[p], attributes, access, write, env.now)
  {
    var meta := fs.tree[p].meta;
    var update := BasicUpdate(attributes, creation, access, write, change);
    AskedTime(access, meta.accessed, env.now);
    AskedTime(write, meta.modified, env.now);
    BasicInfoStores(root, fs, path, update, env, p);
    MetaTook(meta, PutMeta(fs, p, MetaAfter(meta, update, env.now)).tree[p], attributes, creation, access, write, change, env.now);
    hide DoSetBasicInfo, MetaAfter, TimesTook, LeavesTime, NextTime, ResolveExisting;
  }

  // The times and the read-only state took, if the clock and the stored stamps are in order.
  ghost predicate TookAt(ex: Export, fs: Fs, fs': Fs, path: string, attributes: u32, access: u64, write: u64, now: FileTimeValue) {
    var p := Place(ex, path);
    && p.Ok? && p.value in fs.tree && p.value in fs'.tree && SizeOf(fs'.tree[p.value]) <= MAX_FILE
    && (ProperStamps(fs.tree[p.value].meta) && now.nanos < NANOS_PER_SEC ==>
          TimesTook(fs.tree[p.value].meta, fs'.tree[p.value], attributes, access, write, now))
  }

  lemma AnsweredTook(ex: Export, fs: Fs, path: string, attributes: u32, creation: u64, access: u64, write: u64, change: u64, env: Env, link: Link)
    requires Served(ex.root, fs)
    ensures var request := Request.SetBasicInfo(path, BasicUpdate(attributes, creation, access, write, change));
            var (fs', answer) := Send(ex, fs, request, env, link);
            answer.Ok? ==> TookAt(ex, fs, fs', path, attributes, access, write, env.now)
  {
    hide DoSetBasicInfo, TimesTook, WellFormed, Served;
    PlaceResolves(ex, fs, path);
    ServedIsSized(ex.root, fs);
    var update := BasicUpdate(attributes, creation, access, write, change);
    SetBasicInfoTells(ex, fs, path, update, env);
    SetBasicInfoNeedsPath(ex.root, fs, path, update, env);
    if Place(ex, path).Ok? && Place(ex, path).value in fs.tree && ProperStamps(fs.tree[Place(ex, path).value].meta) && env.now.nanos < NANOS_PER_SEC {
      TimesEndToEnd(ex.root, fs, path, attributes, creation, access, write, change, env, Place(ex, path).value);
    }
  }

  lemma SetBasicInfoNeedsPath(root: Path, fs: Fs, path: string, update: BasicInfoUpdate, env: Env)
    requires Sized(fs.tree)
    ensures DoSetBasicInfo(root, fs, path, update, env).1.Ok? ==> ResolveExisting(root, fs.tree, path).Ok?
  {
  }

  // Every permission bit but the three write bits.
  function OtherBits(perm: Perm): (int, int, int, int) {
    (perm / 0x100, perm / 0x20 % 4, perm / 4 % 4, perm % 2)
  }

  lemma PermFromBits(h: nat, b7: nat, m: nat, b4: nat, l: nat, b1: nat, b0: nat)
    requires h < 16 && b7 < 2 && m < 4 && b4 < 2 && l < 4 && b1 < 2 && b0 < 2
    ensures var perm := 0x100 * h + 0x80 * b7 + 0x20 * m + 0x10 * b4 + 4 * l + 2 * b1 + b0;
            && 0 <= perm < 0x1000 && OtherBits(perm) == (h, m, l, b0)
            && perm / 0x80 % 2 == b7 && perm / 0x10 % 2 == b4 && perm / 2 % 2 == b1
  {
    var perm := 0x100 * h + 0x80 * b7 + 0x20 * m + 0x10 * b4 + 4 * l + 2 * b1 + b0;
    assert perm / 2 == 0x80 * h + 0x40 * b7 + 0x10 * m + 8 * b4 + 2 * l + b1;
    assert perm / 4 == 0x40 * h + 0x20 * b7 + 8 * m + 4 * b4 + l;
    assert perm / 0x10 == 0x10 * h + 8 * b7 + 2 * m + b4;
    assert perm / 0x20 == 8 * h + 4 * b7 + m;
    assert perm / 0x80 == 2 * h + b7;
  }

  lemma PermHasBits(perm: Perm) returns (h: nat, b7: nat, m: nat, b4: nat, l: nat, b1: nat, b0: nat)
    ensures h < 16 && b7 < 2 && m < 4 && b4 < 2 && l < 4 && b1 < 2 && b0 < 2
    ensures perm == 0x100 * h + 0x80 * b7 + 0x20 * m + 0x10 * b4 + 4 * l + 2 * b1 + b0
  {
    var q1 := perm / 2;
    var q2 := q1 / 2;
    var q4 := q2 / 4;
    var q5 := q4 / 2;
    var q7 := q5 / 4;
    h, b7, m, b4, l, b1, b0 := q7 / 2, q7 % 2, q5 % 4, q4 % 2, q2 % 4, q1 % 2, perm % 2;
  }

  // Setting the read-only state takes, and touches no bit but the write bits; clearing it on a
  // node with the owner's write bit changes nothing.
  lemma ReadonlyTakes(perm: Perm, readonly: bool)
    ensures IsReadonly(WithReadonly(perm, readonly)) == readonly
    ensures OtherBits(WithReadonly(perm, readonly)) == OtherBits(perm)
    ensures !readonly && perm / 0x80 % 2 == 1 ==> WithReadonly(perm, readonly) == perm
  {
    var h, b7, m, b4, l, b1, b0 := PermHasBits(perm);
    PermFromBits(h, b7, m, b4, l, b1, b0);
    if readonly {
      PermFromBits(h, 0, m, 0, l, 0, b0);
    } else {
      PermFromBits(h, 1, m, b4, l, b1, b0);
    }
  }

  // Writing back what was read: the times come back short of their last hundred nanoseconds, the
  // read-only state comes back, and the permission bits are kept except where a node someone can
  // write is not writable by its owner, who then becomes able to.
  lemma InfoWrittenBack(root: Path, fs: Fs, path: string, env: Env, p: Path)
    requires ResolveExisting(root, fs.tree, path) == Ok(p) && p in fs.tree && Sized(fs.tree)
    requires ProperStamps(fs.tree[p].meta) && env.now.nanos < NANOS_PER_SEC
    requires fs.tree[p].meta.accessed.secs >= 0 && Ticks(fs.tree[p].meta.accessed) < NEVER
    requires fs.tree[p].meta.modified.secs >= 0 && Ticks(fs.tree[p].meta.modified) < NEVER
    ensures var before := fs.tree[p].meta;
            var info := InfoOf(AttrOf(fs.tree[p]));
            var update := BasicUpdate(info.fileAttributes, info.creationTime, info.lastAccessTime, info.lastWriteTime, info.changeTime);
            var (fs', r) := DoSetBasicInfo(root, fs, path, update, env);
            && r.Ok? && p in fs'.tree
            && var meta := fs'.tree[p].meta;
               && meta.accessed == Coarse(before.accessed) && meta.modified == Coarse(before.modified)
               && meta.created == before.created && meta.changed == env.now
               && IsReadonly(meta.perm) == IsReadonly(before.perm)
               && (meta.perm == before.perm <==> IsReadonly(before.perm) || before.perm / 0x80 % 2 == 1)
  {
    var node := fs.tree[p];
    var info := InfoOf(AttrOf(node));
    var update := BasicUpdate(info.fileAttributes, info.creationTime, info.lastAccessTime, info.lastWriteTime, info.changeTime);
    WireRoundTrip(node.meta.accessed);
    WireRoundTrip(node.meta.modified);
    AttributesRoundTrip(AttrOf(node));
    ReadonlyTakes(node.meta.perm, IsReadonly(node.meta.perm));
    hide WindowsTimeFromWire, WireTimeFromWindows, FileAttributesFromAttr, ReadonlyUpdateFromAttributes, DoSetBasicInfo;
    assert update.readonly == Some(IsReadonly(node.meta.perm));
    assert update.lastAccessTime == Some(Coarse(node.meta.accessed)) && update.lastWriteTime == Some(Coarse(node.meta.modified));
    BasicInfoStores(root, fs, path, update, env, p);
  }

  function Coarse(w: FileTimeValue): FileTimeValue {
    w.(nanos := w.nanos / 100 * 100)
  }

  // ---- What a reply's attributes show ----

  // The information block describes the node the path names.
  ghost predicate Shows(ex: Export, fs: Fs, path: string, info: FileInfo) {
    var p := Place(ex, path);
    p.Ok? && p.value in fs.tree && SizeOf(fs.tree[p.value]) <= MAX_FILE && info == InfoOf(AttrOf(fs.tree[p.value]))
  }

  // A time as a tick count: none before 1970 is shown, and what no count can hold is the largest.
  predicate ShownTime(ticks: u64, stored: Option<FileTimeValue>) {
    if stored.None? || stored.value.secs < 0 then ticks == 0
    else
      var n := stored.value.secs * 10_000_000 + 116_444_736_000_000_000 + stored.value.nanos / 100;
      ticks == if n < 0x1_0000_0000_0000_0000 then n else 0xffff_ffff_ffff_ffff
  }

  // Field by field, what the mount shows of a node: the change stamp alone is shown before 1970 too.
  lemma ShownFields(ex: Export, fs: Fs, path: string, info: FileInfo)
    requires Shows(ex, fs, path, info)
    ensures var node := fs.tree[Place(ex, path).value];
            var size := if node.DirNode? then 4096 else |node.data|;
            var readonly := node.meta.perm / 0x80 % 2 == 0 && node.meta.perm / 0x10 % 2 == 0 && node.meta.perm / 2 % 2 == 0;
            && info.fileAttributes == (if node.DirNode? then 0x10 else 0x20) + (if readonly then 0x1 else 0)
            && info.fileSize == size && info.allocationSize % 4096 == 0 && size <= info.allocationSize < size + 4096
            && ShownTime(info.creationTime, node.meta.created)
            && ShownTime(info.lastAccessTime, Some(node.meta.accessed))
            && ShownTime(info.lastWriteTime, Some(node.meta.modified))
            && (node.meta.changed.secs >= 0 ==> ShownTime(info.changeTime, Some(node.meta.changed)))
            && (node.meta.changed.secs < 0 ==>
                 info.changeTime == if node.meta.changed.secs < -11_644_473_600 then 0 else Ticks(node.meta.changed))
            && info.reparseTag == 0 && info.indexNumber == 0 && info.hardLinks == 0 && info.eaSize == 0
  {
    var meta := fs.tree[Place(ex, path).value].meta;
    ShownTicks(meta.created);
    ShownTicks(Some(meta.accessed));
    ShownTicks(Some(meta.modified));
    ShownTicks(Some(meta.changed));
    EarlyTicks(meta.changed);
    hide WindowsTimeFromWire, ShownTime;
  }

  lemma ShownTicks(stored: Option<FileTimeValue>)
    ensures ShownTime(WindowsTimeFromWire(SystemTimeToWire(stored)), stored)
  {
    if stored.Some? {
      TicksClamped(stored.value);
    }
  }

  lemma EarlyTicks(stored: FileTimeValue)
    ensures stored.secs < 0 ==> WindowsTimeFromWire(Some(stored)) == if stored.secs < -11_644_473_600 then 0 else Ticks(stored)
    ensures stored.secs >= 0 ==> WindowsTimeFromWire(Some(stored)) == WindowsTimeFromWire(SystemTimeToWire(Some(stored)))
  {
    TicksClamped(stored);
  }

  // The kind shown is that of the node.
  lemma ShownKind(ex: Export, fs: Fs, path: string, attr: FileAttr)
    requires Shows(ex, fs, path, InfoOf(attr))
    ensures attr.kind == Directory <==> fs.tree[Place(ex, path).value].DirNode?
  {
    var node := fs.tree[Place(ex, path).value];
    AttributesRoundTrip(attr);
    AttributesRoundTrip(AttrOf(node));
    hide FileAttributesFromAttr;
    assert InfoOf(attr).fileAttributes == InfoOf(AttrOf(node)).fileAttributes;
  }

  predicate AnswersWithAttributes(request: Request) {
    request.Stat? || request.Open? || request.Create? || request.Write? || request.SetLen? || request.SetBasicInfo?
  }

  function AttrIn(answer: Answer): Option<FileAttr> {
    match answer
    case Ok(Attr(attr)) => Some(attr)
    case Ok(WriteResult(_, attr)) => Some(attr)
    case _ => None
  }

  predicate IsAttrReply(r: Reply) {
    r.Ok? && (r.value.Attr? || r.value.WriteResult?)
  }

  function AttrOfReply(r: Reply): FileAttr
    requires IsAttrReply(r)
  {
    if r.value.Attr? then r.value.attr else r.value.newAttr
  }

  // The reply is an error, or carries the attributes of the node now at the path.
  ghost predicate Tells(ex: Export, fs: Fs, path: string, r: Reply) {
    r.Ok? ==> IsAttrReply(r) && Shows(ex, fs, path, InfoOf(AttrOfReply(r)))
  }

  lemma StatTells(ex: Export, fs: Fs, path: string)
    requires Served(ex.root, fs) && Sized(fs.tree)
    ensures Tells(ex, fs, path, DoStat(ex.root, fs.tree, path))
  {
    hide InfoOf, AttrOf, Served, WellFormed;
    PlaceResolves(ex, fs, path);
  }

  lemma CreateTells(ex: Export, fs: Fs, path: string, kind: EntryKind, env: Env)
    requires Served(ex.root, fs) && Sized(fs.tree)
    ensures Tells(ex, DoCreate(ex.root, fs, path, kind, env).0, path, DoCreate(ex.root, fs, path, kind, env).1)
  {
    hide InfoOf, AttrOf, WellFormed;
    PlaceResolves(ex, fs, path);
  }

  lemma WriteTells(ex: Export, fs: Fs, path: string, offset: u64, data: seq<byte>, eof: bool, env: Env)
    requires Served(ex.root, fs) && Sized(fs.tree)
    ensures var (fs', r) := DoWrite(ex.root, fs, path, offset, data, eof, env);
            Tells(ex, fs', path, r)
  {
    hide InfoOf, AttrOf, WellFormed, Served, Splice;
    PlaceResolves(ex, fs, path);
    DoWriteKeepsServed(ex.root, fs, path, offset, data, eof, env);
    ServedIsSized(ex.root, DoWrite(ex.root, fs, path, offset, data, eof, env).0);
  }

  lemma SetLenTells(ex: Export, fs: Fs, path: string, size: u64, allocation: bool, env: Env)
    requires Served(ex.root, fs) && Sized(fs.tree)
    ensures var (fs', r) := DoSetLen(ex.root, fs, path, size, allocation, env);
            Tells(ex, fs', path, r)
  {
    hide InfoOf, AttrOf, WellFormed, Served;
    PlaceResolves(ex, fs, path);
  }

  lemma SetBasicInfoTells(ex: Export, fs: Fs, path: string, update: BasicInfoUpdate, env: Env)
    requires Served(ex.root, fs) && Sized(fs.tree)
    ensures var (fs', r) := DoSetBasicInfo(ex.root, fs, path, update, env);
            Tells(ex, fs', path, r)
  {
    hide InfoOf, AttrOf, WellFormed, Served, AfterReadonly, Stamped, StampAllowed, NextTime, CurrentTime;
    PlaceResolves(ex, fs, path);
  }

  lemma RepliesTell(ex: Export, fs: Fs, request: Request, env: Env)
    requires Served(ex.root, fs) && AnswersWithAttributes(request)
    ensures var (fs', r) := Dispatch(ex, fs, request, env);
            Tells(ex, fs', request.path, r)
  {
    hide Served, Tells, DoStat, DoCreate, DoWrite, DoSetLen, DoSetBasicInfo;
    ServedIsSized(ex.root, fs);
    match request {
      case Stat(path) => StatTells(ex, fs, path);
      case Open(path) => StatTells(ex, fs, path);
      case Create(path, kind, _, _) => CreateTells(ex, fs, path, kind, env);
      case Write(path, offset, data, eof) => WriteTells(ex, fs, path, offset, data, eof, env);
      case SetLen(path, size, allocation) => SetLenTells(ex, fs, path, size, allocation, env);
      case SetBasicInfo(path, update) => SetBasicInfoTells(ex, fs, path, update, env);
    }
  }

  // Every attribute record in an answer is that of the node now at the request's path.
  lemma AnswersShowTheNode(ex: Export, fs: Fs, request: Request, env: Env, link: Link)
    requires Served(ex.root, fs) && AnswersWithAttributes(request)
    ensures var (fs', answer) := Send(ex, fs, request, env, link);
            answer.Ok? ==> AttrIn(answer).Some? && Shows(ex, fs', request.path, InfoOf(AttrIn(answer).value))
  {
    hide Served, Dispatch, Shows;
    RepliesTell(ex, fs, request, env);
  }

  // A resize that was answered; an allocation size changes nothing.
  ghost predicate ResizedAt(ex: Export, fs: Fs, fs': Fs, path: string, size: nat, allocation: bool) {
    if allocation then fs' == fs
    else
      var p := Place(ex, path);
      && p.Ok? && p.value in fs.tree && fs.tree[p.value].FileNode? && SameElsewhere(fs.tree, fs'.tree, p.value)
      && Holding(fs'.tree, p.value, Resized(fs.tree[p.value].data, size))
  }

  lemma AnsweredResize(ex: Export, fs: Fs, path: string, size: u64, allocation: bool, env: Env, link: Link)
    requires Served(ex.root, fs)
    ensures var (fs', answer) := Send(ex, fs, SetLen(path, size, allocation), env, link);
            answer.Ok? ==> ResizedAt(ex, fs, fs', path, size, allocation)
  {
    hide Served, WellFormed;
    PlaceResolves(ex, fs, path);
    ServedIsSized(ex.root, fs);
  }

  lemma ShownSize(ex: Export, fs: Fs, path: string, info: FileInfo)
    requires Shows(ex, fs, path, info)
    ensures info.fileSize == SizeOf(fs.tree[Place(ex, path).value]) <= info.allocationSize
  {
  }

  // What a read callback copied: the file's bytes from the offset on, none only at the end or for
  // an empty buffer.
  ghost predicate ReadAt(ex: Export, fs: Fs, path: string, offset: nat, length: nat, bytes: seq<byte>) {
    var p := Place(ex, path);
    && p.Ok? && p.value in fs.tree && fs.tree[p.value].FileNode?
    && var data := fs.tree[p.value].data;
       && (offset <= |data| ==> bytes <= data[offset..])
       && (bytes == [] <==> length == 0 || offset >= |data|)
  }

  lemma ReadAnswers(ex: Export, fs: Fs, path: string, offset: u64, length: u32, env: Env, link: Link)
    requires Served(ex.root, fs)
    ensures var (fs', answer) := Send(ex, fs, Request.Read(path, offset, length), env, link);
            && fs' == fs
            && (answer.Ok? ==> answer.value.Data? && |answer.value.bytes| <= length && ReadAt(ex, fs, path, offset, length, answer.value.bytes))
  {
    hide Served, WellFormed;
    PlaceResolves(ex, fs, path);
    var p := Place(ex, path);
    if p.Ok? && p.value in fs.tree && fs.tree[p.value].FileNode? {
      ReadsAreSlices(ex.root, fs, path, offset, length, env, p.value, fs.tree[p.value].data);
    }
  }

  // ---- Constrained writes ----

  // A constrained write cut to a size seen earlier leaves the file's size alone exactly when the
  // file still reaches the end of the cut; and a file that has not shrunk since has the payload's
  // bytes from the offset up to the size seen, and its own elsewhere.
  lemma ConstrainedWriteStaysInside(root: Path, fs: Fs, path: string, p: Path, seen: nat, payload: seq<byte>, offset: u64, b: seq<byte>, env: Env)
    requires Served(root, fs) && Sized(fs.tree) && ResolveExisting(root, fs.tree, path) == Ok(p) && Holding(fs.tree, p, b)
    requires seen <= MAX_FILE && ConstrainedPayload(payload, offset, seen).Some?
    ensures var cut := ConstrainedPayload(payload, offset, seen).value;
            var (fs', r) := DoWrite(root, fs, path, offset, cut, false, env);
            && r.Ok? && fs'.next == fs.next && SameElsewhere(fs.tree, fs'.tree, p)
            && p in fs'.tree && fs'.tree[p].FileNode?
            && var b' := fs'.tree[p].data;
               && (|b'| == |b| <==> cut == [] || offset + |cut| <= |b|)
               && (seen <= |b| ==> Overlaid(b, b', offset, payload, seen))
  {
    var cut := ConstrainedPayload(payload, offset, seen).value;
    assert cut[..|cut|] == cut;
    SpliceAt(b, offset, cut);
    hide Served, WellFormed;
  }

  ghost predicate SameElsewhere(t: Tree, t': Tree, p: Path) {
    && (forall q :: q in t <==> q in t')
    && (forall q :: q in t && q != p ==> t'[q] == t[q])
    && (p in t ==> t'[p].id == t[p].id)
  }

  // `b'` is `b` with the payload's bytes laid over it from the offset, below `size`.
  ghost predicate Overlaid(b: seq<byte>, b': seq<byte>, offset: nat, payload: seq<byte>, size: nat) {
    && |b'| == |b|
    && forall i :: 0 <= i < |b| ==> b'[i] == if offset <= i < size && i < offset + |payload| then payload[i - offset] else b[i]
  }

  // The disk is as it was, or differs in that one file's bytes, from the offset up to the size.
  ghost predicate OnlyInside(ex: Export, fs: Fs, fs': Fs, path: string, offset: nat, payload: seq<byte>, size: nat) {
    || fs' == fs
    || (&& Place(ex, path).Ok?
        && var p := Place(ex, path).value;
           && fs'.next == fs.next && SameElsewhere(fs.tree, fs'.tree, p)
           && p in fs.tree && fs.tree[p].FileNode? && fs'.tree[p].FileNode?
           && Overlaid(fs.tree[p].data, fs'.tree[p].data, offset, payload, size))
  }

  predicate NamesFile(ex: Export, fs: Fs, path: string) {
    var p := Place(ex, path);
    p.Ok? && p.value in fs.tree && fs.tree[p.value].FileNode?
  }

  // The size of the file the path names.
  function FileSizeAt(ex: Export, fs: Fs, path: string): nat {
    if NamesFile(ex, fs, path) then |fs.tree[Place(ex, path).value].data| else 0
  }

  predicate NotBelow(ex: Export, fs: Fs, path: string, size: nat) {
    NamesFile(ex, fs, path) ==> size <= FileSizeAt(ex, fs, path)
  }

  lemma CutWriteInside(ex: Export, fs: Fs, path: string, payload: seq<byte>, offset: u64, seen: nat, env: Env, link: Link)
    requires Served(ex.root, fs) && seen <= MAX_FILE && ConstrainedPayload(payload, offset, seen).Some? && NotBelow(ex, fs, path, seen)
    ensures OnlyInside(ex, fs, Send(ex, fs, Request.Write(path, offset, ConstrainedPayload(payload, offset, seen).value, false), env, link).0, path, offset, payload, seen)
  {
    PlaceResolves(ex, fs, path);
    ServedIsSized(ex.root, fs);
    if NamesFile(ex, fs, path) {
      var p := Place(ex, path);
      ConstrainedWriteStaysInside(ex.root, fs, path, p.value, seen, payload, offset, fs.tree[p.value].data, env);
      hide DoWrite, Served, WellFormed, ConstrainedPayload, Overlaid, SameElsewhere;
    } else {
      hide Served, WellFormed;
    }
  }

  lemma StatSize(ex: Export, fs: Fs, path: string, env: Env)
    requires Served(ex.root, fs) && Dispatch(ex, fs, Stat(path), env).1.Ok?
    ensures Dispatch(ex, fs, Stat(path), env).1.value.Attr?
    ensures Place(ex, path).Ok? && Place(ex, path).value in fs.tree && SizeOf(fs.tree[Place(ex, path).value]) <= MAX_FILE
    ensures Dispatch(ex, fs, Stat(path), env).1.value.attr.size == SizeOf(fs.tree[Place(ex, path).value])
  {
    PlaceResolves(ex, fs, path);
    ServedIsSized(ex.root, fs);
  }

  // A constrained write is a Stat and then a cut Write. Whatever requests are run between the two,
  // if a file the path then names is no smaller than the size the Stat gave, the size stays, only
  // bytes from the offset up to that size change, to the payload's, and no other node changes.
  lemma ConstrainedWriteOverRuns(ex: Export, fs0: Fs, calls: seq<Call>, path: string, payload: seq<byte>, offset: u64,
                                 statEnv: Env, env: Env, link: Link)
    requires Served(ex.root, fs0) && Dispatch(ex, fs0, Stat(path), statEnv).1.Ok?
    ensures Dispatch(ex, fs0, Stat(path), statEnv).1.value.Attr?
    ensures var size := Dispatch(ex, fs0, Stat(path), statEnv).1.value.attr.size;
            var cut := ConstrainedPayload(payload, offset, size);
            var fs := Run(ex, fs0, calls);
            cut.Some? && NotBelow(ex, fs, path, size) ==>
              OnlyInside(ex, fs, Send(ex, fs, Request.Write(path, offset, cut.value, false), env, link).0, path, offset, payload, size)
  {
    hide Served, Dispatch, Send, Run, OnlyInside, NotBelow, ConstrainedPayload;
    StatSize(ex, fs0, path, statEnv);
    var size := Dispatch(ex, fs0, Stat(path), statEnv).1.value.attr.size;
    var fs := Run(ex, fs0, calls);
    if ConstrainedPayload(payload, offset, size).Some? && NotBelow(ex, fs, path, size) {
      CutWriteInside(ex, fs, path, payload, offset, size, env, link);
    }
  }

  // The cut write run on any later disk, at once or as a call given up long before: it keeps the
  // size exactly when the file the path then names still reaches the end of the cut; where the path
  // names no file it changes nothing.
  lemma CutWriteResizesIff(ex: Export, fs0: Fs, calls: seq<Call>, path: string, payload: seq<byte>, offset: u64, statEnv: Env, env: Env)
    requires Served(ex.root, fs0) && Dispatch(ex, fs0, Stat(path), statEnv).1.Ok?
    ensures Dispatch(ex, fs0, Stat(path), statEnv).1.value.Attr?
    ensures var cut := ConstrainedPayload(payload, offset, Dispatch(ex, fs0, Stat(path), statEnv).1.value.attr.size);
            var fs := Run(ex, fs0, calls);
            cut.Some? ==>
              var fs' := Dispatch(ex, fs, Request.Write(path, offset, cut.value, false), env).0;
              && NamesFile(ex, fs', path) == NamesFile(ex, fs, path)
              && (!NamesFile(ex, fs, path) ==> fs' == fs)
              && (NamesFile(ex, fs, path) ==>
                    (FileSizeAt(ex, fs', path) == FileSizeAt(ex, fs, path) <==>
                     cut.value == [] || offset + |cut.value| <= FileSizeAt(ex, fs, path)))
  {
    hide Served, Dispatch, Run, ConstrainedPayload, FileSizeAt, NamesFile;
    StatSize(ex, fs0, path, statEnv);
    var size := Dispatch(ex, fs0, Stat(path), statEnv).1.value.attr.size;
    if ConstrainedPayload(payload, offset, size).Some? {
      CutWriteSize(ex, Run(ex, fs0, calls), path, payload, offset, size, env);
    }
  }

  lemma CutWriteSize(ex: Export, fs: Fs, path: string, payload: seq<byte>, offset: u64, seen: nat, env: Env)
    requires Served(ex.root, fs) && seen <= MAX_FILE && ConstrainedPayload(payload, offset, seen).Some?
    ensures var cut := ConstrainedPayload(payload, offset, seen).value;
            var fs' := Dispatch(ex, fs, Request.Write(path, offset, cut, false), env).0;
            && NamesFile(ex, fs', path) == NamesFile(ex, fs, path)
            && (!NamesFile(ex, fs, path) ==> fs' == fs)
            && (NamesFile(ex, fs, path) ==>
                  (FileSizeAt(ex, fs', path) == FileSizeAt(ex, fs, path) <==> cut == [] || offset + |cut| <= FileSizeAt(ex, fs, path)))
  {
    hide WellFormed, ConstrainedPayload, Overlaid, SameElsewhere;
    PlaceResolves(ex, fs, path);
    ServedIsSized(ex.root, fs);
    if NamesFile(ex, fs, path) {
      hide DoWrite;
      var p := Place(ex, path).value;
      ConstrainedWriteStaysInside(ex.root, fs, path, p, seen, payload, offset, fs.tree[p].data, env);
    }
  }

  // The disk is as it was, or that file's bytes differ, within its size.
  ghost predicate NeverResizes(ex: Export, fs: Fs, fs': Fs, path: string, offset: nat, buffer: seq<byte>) {
    OnlyInside(ex, fs, fs', path, offset, buffer, FileSizeAt(ex, fs, path))
  }

  // The callback with nothing run in between, and its write run at once or never: constrained and
  // not at the end, it changes no file's size, whichever of its two connections is lost. A write run
  // late is the business of CutWriteResizesIff.
  lemma ConstrainedCallbackNeverResizes(ex: Export, fs: Fs, path: string, buffer: seq<byte>, offset: u64,
                                        statEnv: Env, statLink: Link, env: Env, link: Link)
    requires Served(ex.root, fs)
    ensures NeverResizes(ex, fs, WriteSpec(ex, fs, path, buffer, offset, false, true, statEnv, statLink, env, link).0, path, offset, buffer)
  {
    hide Served, Dispatch, OnlyInside, ConstrainedPayload, Place;
    NothingInside(ex, fs, path, buffer, offset, FileSizeAt(ex, fs, path));
    if statLink.Up? && Dispatch(ex, fs, Stat(path), statEnv).1.Ok? {
      StatSize(ex, fs, path, statEnv);
      var size := Dispatch(ex, fs, Stat(path), statEnv).1.value.attr.size;
      if ConstrainedPayload(buffer, offset, size).Some? {
        CutWriteInside(ex, fs, path, buffer, offset, size, env, link);
        OnlyFilesChange(ex, fs, Send(ex, fs, Request.Write(path, offset, ConstrainedPayload(buffer, offset, size).value, false), env, link).0, path, offset, buffer, size);
      }
    }
  }

  // Both connections up: the payload is cut to what lies below the file's size, and that much of it
  // is laid over the file; from the size on there is nothing to write.
  ghost predicate CutAndWrote(ex: Export, fs: Fs, fs': Fs, path: string, offset: nat, buffer: seq<byte>, r: Result<u32, Failure>)
    requires NamesFile(ex, fs, path)
  {
    var p := Place(ex, path).value;
    var b := fs.tree[p].data;
    if offset >= |b| then fs' == fs && r == Ok(0)
    else
      && r == Ok((if |buffer| <= |b| - offset then |buffer| else |b| - offset) % 0x1_0000_0000)
      && SameElsewhere(fs.tree, fs'.tree, p) && fs'.tree[p].FileNode?
      && Overlaid(b, fs'.tree[p].data, offset, buffer, |b|)
  }

  // To the end as well: what was not cut away is appended.
  ghost predicate CutAndAppended(ex: Export, fs: Fs, fs': Fs, path: string, offset: nat, buffer: seq<byte>, r: Result<u32, Failure>)
    requires NamesFile(ex, fs, path)
  {
    var p := Place(ex, path).value;
    var b := fs.tree[p].data;
    if offset >= |b| then fs' == fs && r == Ok(0)
    else
      var n := if |buffer| <= |b| - offset then |buffer| else |b| - offset;
      |b| + n < 0x8000_0000_0000_0000 ==>
        && r == Ok(n % 0x1_0000_0000)
        && SameElsewhere(fs.tree, fs'.tree, p) && Holding(fs'.tree, p, b + buffer[..n])
  }

  lemma ConstrainedCallbackWrites(ex: Export, fs: Fs, path: string, buffer: seq<byte>, offset: u64, eof: bool,
                                  statEnv: Env, statLink: Link, env: Env, link: Link)
    requires Served(ex.root, fs) && NamesFile(ex, fs, path) && statLink.Up? && link.Up?
    ensures var (fs', r, filled) := WriteSpec(ex, fs, path, buffer, offset, eof, true, statEnv, statLink, env, link);
            && (if eof then CutAndAppended(ex, fs, fs', path, offset, buffer, r) else CutAndWrote(ex, fs, fs', path, offset, buffer, r))
            && (if offset < FileSizeAt(ex, fs, path) then r.Ok? ==> filled.Some? && Shows(ex, fs', path, filled.value) else filled == None)
  {
    hide Served, Dispatch, SameElsewhere, Overlaid, Shows, InfoOf;
    var p := Place(ex, path).value;
    var b := fs.tree[p].data;
    NamedFileStats(ex, fs, path, statEnv);
    if offset < |b| {
      var cut := ConstrainedPayload(buffer, offset, |b|).value;
      AnswersShowTheNode(ex, fs, Request.Write(path, offset, cut, eof), env, link);
      CutWriteDone(ex, fs, path, buffer, offset, eof, env);
    }
  }

  // A flush leaves the disk alone; of no path it succeeds when the answer arrives.
  lemma FlushSends(ex: Export, fs: Fs, target: Option<string>, env: Env, link: Link)
    requires Served(ex.root, fs)
    ensures var (fs', answer) := Send(ex, fs, Request.Flush(target), env, link);
            fs' == fs && (target.None? ==> (answer.Ok? <==> link.Up?))
  {
    hide Served, ResolveExisting;
  }

  // A lost connection is the answer; lost while asking for the size, nothing is written.
  lemma LostWriteFails(ex: Export, fs: Fs, path: string, buffer: seq<byte>, offset: u64, eof: bool, constrained: bool,
                       statEnv: Env, statLink: Link, env: Env, link: Link)
    requires Served(ex.root, fs)
    ensures var (fs', r, filled) := WriteSpec(ex, fs, path, buffer, offset, eof, constrained, statEnv, statLink, env, link);
            && (constrained && !statLink.Up? ==> fs' == fs && r == Err(Transport(statLink.kind, statLink.text)))
            && (!constrained && !link.Up? ==> r == Err(Transport(link.kind, link.text)))
  {
    hide Served, Dispatch;
  }

  lemma NamedFileStats(ex: Export, fs: Fs, path: string, env: Env)
    requires Served(ex.root, fs) && NamesFile(ex, fs, path)
    ensures var (fs', r) := Dispatch(ex, fs, Stat(path), env);
            fs' == fs && r.Ok? && r.value.Attr? && r.value.attr.size == |fs.tree[Place(ex, path).value].data| <= MAX_FILE
  {
    PlaceResolves(ex, fs, path);
    ServedIsSized(ex.root, fs);
    LookupFinds(fs, Place(ex, path).value);
  }

  lemma CutWriteDone(ex: Export, fs: Fs, path: string, buffer: seq<byte>, offset: u64, eof: bool, env: Env)
    requires Served(ex.root, fs) && NamesFile(ex, fs, path) && offset < |fs.tree[Place(ex, path).value].data| <= MAX_FILE
    ensures var p := Place(ex, path).value;
            var b := fs.tree[p].data;
            var cut := ConstrainedPayload(buffer, offset, |b|).value;
            var (fs', r) := Dispatch(ex, fs, Request.Write(path, offset, cut, eof), env);
            && (!eof || |b| + |cut| <= MAX_FILE ==> r.Ok? && r.value.WriteResult? && r.value.written == |cut| % TWO_32)
            && (!eof ==> SameElsewhere(fs.tree, fs'.tree, p) && fs'.tree[p].FileNode? && Overlaid(b, fs'.tree[p].data, offset, buffer, |b|))
            && (eof && |b| + |cut| <= MAX_FILE ==> SameElsewhere(fs.tree, fs'.tree, p) && Holding(fs'.tree, p, b + cut))
  {
    var p := Place(ex, path).value;
    var b := fs.tree[p].data;
    PlaceResolves(ex, fs, path);
    ServedIsSized(ex.root, fs);
    var cut := ConstrainedPayload(buffer, offset, |b|).value;
    assert cut[..|cut|] == cut;
    if eof {
      assert Splice(b, |b|, cut) == b + cut;
    } else {
      ConstrainedWriteStaysInside(ex.root, fs, path, p, |b|, buffer, offset, b, env);
    }
    hide Served, WellFormed, Overlaid, Splice;
  }

  lemma OnlyFilesChange(ex: Export, fs: Fs, fs': Fs, path: string, offset: u64, buffer: seq<byte>, size: nat)
    requires OnlyInside(ex, fs, fs', path, offset, buffer, size)
    requires FileSizeAt(ex, fs, path) > 0 ==> FileSizeAt(ex, fs, path) == size
    ensures OnlyInside(ex, fs, fs', path, offset, buffer, FileSizeAt(ex, fs, path))
  {
  }

  lemma NothingInside(ex: Export, fs: Fs, path: string, buffer: seq<byte>, offset: u64, size: nat)
    ensures OnlyInside(ex, fs, fs, path, offset, buffer, size)
  {
  }

  // The bytes were laid over the file from the offset, or put at its end.
  ghost predicate WroteAt(ex: Export, fs: Fs, fs': Fs, path: string, offset: nat, buffer: seq<byte>, eof: bool) {
    var p := Place(ex, path);
    && p.Ok? && p.value in fs.tree && fs.tree[p.value].FileNode? && SameElsewhere(fs.tree, fs'.tree, p.value)
    && var b := fs.tree[p.value].data;
       Holding(fs'.tree, p.value, Splice(b, if eof then |b| else offset, buffer))
  }

  // An answered write callback: the file has the bytes written, and the information describes it.
  lemma WriteCallbackTook(ex: Export, fs: Fs, path: string, buffer: seq<byte>, offset: u64, eof: bool, statEnv: Env, statLink: Link, env: Env, link: Link)
    requires Served(ex.root, fs)
    ensures var (fs', r, filled) := WriteSpec(ex, fs, path, buffer, offset, eof, false, statEnv, statLink, env, link);
            r.Ok? ==>
              && r == Ok(|buffer| % TWO_32) && WroteAt(ex, fs, fs', path, offset, buffer, eof)
              && filled.Some? && Shows(ex, fs', path, filled.value)
  {
    hide Served, WellFormed, Shows, Splice;
    AnswersShowTheNode(ex, fs, Request.Write(path, offset, buffer, eof), env, link);
    PlaceResolves(ex, fs, path);
    assert buffer[..|buffer|] == buffer;
    ServedIsSized(ex.root, fs);
    NoWriteNoChange(ex, fs, path);
  }

  lemma NoWriteNoChange(ex: Export, fs: Fs, path: string)
    ensures forall at: nat :: Place(ex, path).Ok? && Place(ex, path).value in fs.tree && fs.tree[Place(ex, path).value].FileNode? ==>
              Splice(fs.tree[Place(ex, path).value].data, at, []) == fs.tree[Place(ex, path).value].data
  {
  }

  // Asked to write at the end as well, the same request appends what was not cut away.
  lemma ConstrainedAppendGrows(root: Path, fs: Fs, path: string, p: Path, seen: nat, payload: seq<byte>, offset: u64, b: seq<byte>, env: Env)
    requires Served(root, fs) && Sized(fs.tree) && ResolveExisting(root, fs.tree, path) == Ok(p) && Holding(fs.tree, p, b)
    requires seen <= MAX_FILE && ConstrainedPayload(payload, offset, seen).Some?
    requires |b| + |payload| <= MAX_FILE
    ensures var cut := ConstrainedPayload(payload, offset, seen).value;
            Holding(DoWrite(root, fs, path, offset, cut, true, env).0.tree, p, b + cut)
  {
    var cut := ConstrainedPayload(payload, offset, seen).value;
    assert cut[..|cut|] == cut;
    assert Splice(b, |b|, cut) == b + cut;
    hide Served, WellFormed;
  }
}
