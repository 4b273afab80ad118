/** Requests and replies as wire values, with the shapes derived from src/protocol.rs: variants in
    declaration order, fields in declaration order. */
module Messages {
  import opened Wrappers
  import opened Protocol
  import opened Postcard

  // ---- Shapes ----

  const KIND: Schema := SEnum([SUnit, SUnit])
  const TIME: Schema := SPair(SI64, SU32)
  const OPT_TIME: Schema := SOption(TIME)
  const STAMPS: Schema :=
    SPair(OPT_TIME, SPair(OPT_TIME, SPair(OPT_TIME, SPair(OPT_TIME, SPair(SBool, SOption(SU32))))))
  const ATTR: Schema := SPair(KIND, SPair(SU64, SPair(SU64, STAMPS)))
  const UPDATE: Schema :=
    SPair(SOption(SBool), SPair(OPT_TIME, SPair(OPT_TIME, SPair(OPT_TIME, OPT_TIME))))
  const VOLUME: Schema := SPair(SU64, SPair(SU64, SStr))

  const REQUEST: Schema := SEnum([
    SStr,
    SStr,
    SPair(SStr, SPair(KIND, SPair(SU32, SU64))),
    SStr,
    SPair(SStr, SPair(SU64, SU32)),
    SPair(SStr, SPair(SU64, SPair(SBytes, SBool))),
    SPair(SStr, KIND),
    SStr,
    SStr,
    SPair(SStr, SPair(SStr, SBool)),
    SPair(SStr, SPair(SU64, SBool)),
    SOption(SStr),
    SPair(SStr, UPDATE),
    SUnit])

  const RESPONSE: Schema := SEnum([
    ATTR,
    SSeq(SPair(SStr, ATTR)),
    SBytes,
    SPair(SU32, ATTR),
    VOLUME,
    SUnit])

  const CODE: Schema := SEnum([
    SUnit, SUnit, SUnit, SUnit, SUnit,
    SUnit, SUnit, SUnit, SUnit])

  const RESULT: Schema := SEnum([RESPONSE, SPair(CODE, SStr)])

  // ---- To wire values ----

  function KindVal(kind: EntryKind): Val {
    VEnum(if kind.File? then 0 else 1, VUnit)
  }

  function TimeVal(t: FileTimeValue): Val {
    VPair(VInt(t.secs), VUint(t.nanos))
  }

  function OptTimeVal(t: Option<FileTimeValue>): Val {
    if t.Some? then VOption(true, TimeVal(t.value)) else VOption(false, VUnit)
  }

  function OptBoolVal(b: Option<bool>): Val {
    if b.Some? then VOption(true, VBool(b.value)) else VOption(false, VUnit)
  }

  function StampsVal(a: FileAttr): Val {
    VPair(OptTimeVal(a.created), VPair(OptTimeVal(a.accessed), VPair(OptTimeVal(a.modified), VPair(OptTimeVal(a.changed),
      VPair(VBool(a.readonly), if a.mode.Some? then VOption(true, VUint(a.mode.value)) else VOption(false, VUnit))))))
  }

  function AttrVal(a: FileAttr): Val {
    VPair(KindVal(a.kind), VPair(VUint(a.size), VPair(VUint(a.allocatedSize), StampsVal(a))))
  }

  function UpdateVal(u: BasicInfoUpdate): Val {
    VPair(OptBoolVal(u.readonly), VPair(OptTimeVal(u.creationTime), VPair(OptTimeVal(u.lastAccessTime),
      VPair(OptTimeVal(u.lastWriteTime), OptTimeVal(u.changeTime)))))
  }

  function RequestVal(r: Request): Val {
    match r
    case Stat(path) => VEnum(0, VStr(path))
    case Open(path) => VEnum(1, VStr(path))
    case Create(path, kind, attributes, allocation) =>
      VEnum(2, VPair(VStr(path), VPair(KindVal(kind), VPair(VUint(attributes), VUint(allocation)))))
    case ReadDir(path) => VEnum(3, VStr(path))
    case Read(path, offset, length) => VEnum(4, VPair(VStr(path), VPair(VUint(offset), VUint(length))))
    case Write(path, offset, data, eof) =>
      VEnum(5, VPair(VStr(path), VPair(VUint(offset), VPair(VBytes(data), VBool(eof)))))
    case CanDelete(path, kind) => VEnum(6, VPair(VStr(path), KindVal(kind)))
    case RemoveFile(path) => VEnum(7, VStr(path))
    case RemoveDir(path) => VEnum(8, VStr(path))
    case Rename(path, newPath, replace) => VEnum(9, VPair(VStr(path), VPair(VStr(newPath), VBool(replace))))
    case SetLen(path, size, allocation) => VEnum(10, VPair(VStr(path), VPair(VUint(size), VBool(allocation))))
    case Flush(target) =>
      VEnum(11, if target.Some? then VOption(true, VStr(target.value)) else VOption(false, VUnit))
    case SetBasicInfo(path, update) => VEnum(12, VPair(VStr(path), UpdateVal(update)))
    case GetVolumeInfo => VEnum(13, VUnit)
  }

  function EntryVals(entries: seq<DirEntry>): Vals {
    if entries == [] then Nil
    else Cons(VPair(VStr(entries[0].name), AttrVal(entries[0].attr)), EntryVals(entries[1..]))
  }

  function ResponseVal(r: Response): Val {
    match r
    case Attr(attr) => VEnum(0, AttrVal(attr))
    case DirEntries(entries) => VEnum(1, VSeq(EntryVals(entries)))
    case Data(bytes) => VEnum(2, VBytes(bytes))
    case WriteResult(written, attr) => VEnum(3, VPair(VUint(written), AttrVal(attr)))
    case VolumeInfo(info) => VEnum(4, VPair(VUint(info.totalSize), VPair(VUint(info.freeSize), VStr(info.volumeLabel))))
    case Empty => VEnum(5, VUnit)
  }

  function CodeTag(code: ErrorCode): nat {
    match code
    case NotFound => 0
    case AlreadyExists => 1
    case PermissionDenied => 2
    case InvalidInput => 3
    case NotDirectory => 4
    case IsDirectory => 5
    case DirectoryNotEmpty => 6
    case Unsupported => 7
    case Unexpected => 8
  }

  type RpcResult = Result<Response, RpcError>

  function ResultVal(r: RpcResult): Val {
    match r
    case Ok(response) => VEnum(0, ResponseVal(response))
    case Err(error) => VEnum(1, VPair(VEnum(CodeTag(error.code), VUnit), VStr(error.message)))
  }

  // ---- From wire values ----

  function KindFrom(v: Val): Option<EntryKind> {
    match v
    case VEnum(0, VUnit) => Some(File)
    case VEnum(1, VUnit) => Some(Directory)
    case _ => None
  }

  function U32From(v: Val): Option<u32> {
    if v.VUint? && v.n < TWO_32 then Some(v.n) else None
  }

  function U64From(v: Val): Option<u64> {
    if v.VUint? && v.n < TWO_64 then Some(v.n) else None
  }

  function BoolFrom(v: Val): Option<bool> {
    if v.VBool? then Some(v.b) else None
  }

  function TimeFrom(v: Val): Option<FileTimeValue> {
    match v
    case VPair(VInt(secs), nanos) =>
      var n :- U32From(nanos);
      if -TWO_63 <= secs < TWO_63 then Some(FileTimeValue(secs, n)) else None
    case _ => None
  }

  function OptTimeFrom(v: Val): Option<Option<FileTimeValue>> {
    match v
    case VOption(true, t) =>
      var time :- TimeFrom(t);
      Some(Some(time))
    case VOption(false, VUnit) => Some(None)
    case _ => None
  }

  function OptBoolFrom(v: Val): Option<Option<bool>> {
    match v
    case VOption(true, VBool(b)) => Some(Some(b))
    case VOption(false, VUnit) => Some(None)
    case _ => None
  }

  function OptU32From(v: Val): Option<Option<u32>> {
    match v
    case VOption(true, n) =>
      var value :- U32From(n);
      Some(Some(value))
    case VOption(false, VUnit) => Some(None)
    case _ => None
  }

  function StampsFrom(kind: EntryKind, size: u64, blocks: u64, v: Val): Option<FileAttr> {
    match v
    case VPair(created, VPair(accessed, VPair(modified, VPair(changed, VPair(readonly, mode))))) =>
      var cr :- OptTimeFrom(created);
      var ac :- OptTimeFrom(accessed);
      var mo :- OptTimeFrom(modified);
      var ch :- OptTimeFrom(changed);
      var ro :- BoolFrom(readonly);
      var m :- OptU32From(mode);
      Some(FileAttr(kind, size, blocks, cr, ac, mo, ch, ro, m))
    case _ => None
  }

  function AttrFrom(v: Val): Option<FileAttr> {
    match v
    case VPair(kind, VPair(size, VPair(blocks, stamps))) =>
      var k :- KindFrom(kind);
      var s :- U64From(size);
      var b :- U64From(blocks);
      StampsFrom(k, s, b, stamps)
    case _ => None
  }

  function UpdateFrom(v: Val): Option<BasicInfoUpdate> {
    match v
    case VPair(readonly, VPair(creation, VPair(access, VPair(write, change)))) =>
      var ro :- OptBoolFrom(readonly);
      var cr :- OptTimeFrom(creation);
      var ac :- OptTimeFrom(access);
      var wr :- OptTimeFrom(write);
      var ch :- OptTimeFrom(change);
      Some(BasicInfoUpdate(ro, cr, ac, wr, ch))
    case _ => None
  }

  function RequestFrom(v: Val): Option<Request> {
    match v
    case VEnum(0, VStr(path)) => Some(Stat(path))
    case VEnum(1, VStr(path)) => Some(Open(path))
    case VEnum(2, VPair(VStr(path), VPair(kind, VPair(attributes, allocation)))) =>
      var k :- KindFrom(kind);
      var at :- U32From(attributes);
      var al :- U64From(allocation);
      Some(Create(path, k, at, al))
    case VEnum(3, VStr(path)) => Some(ReadDir(path))
    case VEnum(4, VPair(VStr(path), VPair(offset, length))) =>
      var o :- U64From(offset);
      var l :- U32From(length);
      Some(Read(path, o, l))
    case VEnum(5, VPair(VStr(path), VPair(offset, VPair(VBytes(data), VBool(eof))))) =>
      var o :- U64From(offset);
      Some(Write(path, o, data, eof))
    case VEnum(6, VPair(VStr(path), kind)) =>
      var k :- KindFrom(kind);
      Some(CanDelete(path, k))
    case VEnum(7, VStr(path)) => Some(RemoveFile(path))
    case VEnum(8, VStr(path)) => Some(RemoveDir(path))
    case VEnum(9, VPair(VStr(path), VPair(VStr(newPath), VBool(replace)))) => Some(Rename(path, newPath, replace))
    case VEnum(10, VPair(VStr(path), VPair(size, VBool(allocation)))) =>
      var s :- U64From(size);
      Some(SetLen(path, s, allocation))
    case VEnum(11, VOption(true, VStr(path))) => Some(Flush(Some(path)))
    case VEnum(11, VOption(false, VUnit)) => Some(Flush(None))
    case VEnum(12, VPair(VStr(path), update)) =>
      var u :- UpdateFrom(update);
      Some(SetBasicInfo(path, u))
    case VEnum(13, VUnit) => Some(GetVolumeInfo)
    case _ => None
  }

  function EntriesFrom(vs: Vals): Option<seq<DirEntry>> {
    match vs
    case Nil => Some([])
    case Cons(VPair(VStr(name), attr), tail) =>
      var a :- AttrFrom(attr);
      var rest :- EntriesFrom(tail);
      Some([DirEntry(name, a)] + rest)
    case _ => None
  }

  function ResponseFrom(v: Val): Option<Response> {
    match v
    case VEnum(0, attr) =>
      var a :- AttrFrom(attr);
      Some(Attr(a))
    case VEnum(1, VSeq(items)) =>
      var entries :- EntriesFrom(items);
      Some(DirEntries(entries))
    case VEnum(2, VBytes(bytes)) => Some(Data(bytes))
    case VEnum(3, VPair(written, attr)) =>
      var w :- U32From(written);
      var a :- AttrFrom(attr);
      Some(WriteResult(w, a))
    case VEnum(4, VPair(total, VPair(free, VStr(volumeLabel)))) =>
      var t :- U64From(total);
      var f :- U64From(free);
      Some(VolumeInfo(VolumeInfoData(t, f, volumeLabel)))
    case VEnum(5, VUnit) => Some(Empty)
    case _ => None
  }

  function CodeFrom(tag: nat): Option<ErrorCode> {
    match tag
    case 0 => Some(NotFound)
    case 1 => Some(AlreadyExists)
    case 2 => Some(PermissionDenied)
    case 3 => Some(InvalidInput)
    case 4 => Some(NotDirectory)
    case 5 => Some(IsDirectory)
    case 6 => Some(DirectoryNotEmpty)
    case 7 => Some(Unsupported)
    case 8 => Some(Unexpected)
    case _ => None
  }

  function ResultFrom(v: Val): Option<RpcResult> {
    match v
    case VEnum(0, response) =>
      var r :- ResponseFrom(response);
      Some(Ok(r))
    case VEnum(1, VPair(VEnum(tag, VUnit), VStr(message))) =>
      var code :- CodeFrom(tag);
      Some(Err(RpcError(code, message)))
    case _ => None
  }

  // ---- Bytes; what follows the value is discarded ----

  function EncodeRequest(r: Request): seq<byte> {
    Encode(RequestVal(r))
  }

  function DecodeRequest(bytes: seq<byte>): Option<Request> {
    var d :- Decode(REQUEST, bytes);
    RequestFrom(d.0)
  }

  function EncodeResult(r: RpcResult): seq<byte> {
    Encode(ResultVal(r))
  }

  function DecodeResult(bytes: seq<byte>): Option<RpcResult> {
    var d :- Decode(RESULT, bytes);
    ResultFrom(d.0)
  }

  // ---- Each message has its shape and comes back from its wire value ----

  lemma TimeShaped(t: Option<FileTimeValue>)
    ensures Shaped(OptTimeVal(t), OPT_TIME) && OptTimeFrom(OptTimeVal(t)) == Some(t)
  {
  }

  lemma KindShaped(kind: EntryKind)
    ensures Shaped(KindVal(kind), KIND) && KindFrom(KindVal(kind)) == Some(kind)
    ensures Encode(KindVal(kind)) != []
  {
  }

  lemma StampsShaped(a: FileAttr)
    ensures Shaped(StampsVal(a), STAMPS)
  {
    hide OptTimeVal, OptTimeFrom, Encode;
    TimeShaped(a.created);
    TimeShaped(a.accessed);
    TimeShaped(a.modified);
    TimeShaped(a.changed);
    assert Shaped(StampsVal(a).b'.b'.b', STAMPS.b.b.b);
  }

  lemma StampsComeBack(a: FileAttr)
    ensures StampsFrom(a.kind, a.size, a.allocatedSize, StampsVal(a)) == Some(a)
  {
    hide OptTimeVal, OptTimeFrom, Shaped, Encode;
    TimeShaped(a.created);
    TimeShaped(a.accessed);
    TimeShaped(a.modified);
    TimeShaped(a.changed);
  }

  lemma AttrShaped(a: FileAttr)
    ensures Shaped(AttrVal(a), ATTR) && AttrFrom(AttrVal(a)) == Some(a)
  {
    hide KindVal, KindFrom, StampsVal, StampsFrom, Encode;
    KindShaped(a.kind);
    StampsShaped(a);
    StampsComeBack(a);
  }

  lemma AttrNotEmpty(a: FileAttr)
    ensures Encode(AttrVal(a)) != []
  {
    KindShaped(a.kind);
  }

  lemma UpdateShaped(u: BasicInfoUpdate)
    ensures Shaped(UpdateVal(u), UPDATE) && UpdateFrom(UpdateVal(u)) == Some(u)
  {
    TimeShaped(u.creationTime);
    TimeShaped(u.lastAccessTime);
    TimeShaped(u.lastWriteTime);
    TimeShaped(u.changeTime);
    hide OptTimeVal, OptTimeFrom, Encode;
  }

  lemma {:induction false} EntriesShaped(entries: seq<DirEntry>)
    ensures AllShaped(EntryVals(entries), SPair(SStr, ATTR)) && EntriesFrom(EntryVals(entries)) == Some(entries)
  {
    hide AttrVal, AttrFrom;
    if entries != [] {
      AttrShaped(entries[0].attr);
      AttrNotEmpty(entries[0].attr);
      EntriesShaped(entries[1..]);
      assert entries == [entries[0]] + entries[1..];
    }
  }

  lemma RequestShaped(r: Request)
    ensures Shaped(RequestVal(r), REQUEST) && RequestFrom(RequestVal(r)) == Some(r)
  {
    if r.Create? {
      CreateShaped(r);
    } else if r.SetBasicInfo? {
      SetBasicInfoShaped(r);
    } else if r.Read? || r.Write? || r.SetLen? {
      ContentRequestShaped(r);
    } else {
      NameRequestShaped(r);
    }
  }

  lemma CreateShaped(r: Request)
    requires r.Create?
    ensures Shaped(RequestVal(r), REQUEST) && RequestFrom(RequestVal(r)) == Some(r)
  {
    hide KindVal, KindFrom, Encode, AllShaped;
    KindShaped(r.kind);
  }

  lemma SetBasicInfoShaped(r: Request)
    requires r.SetBasicInfo?
    ensures Shaped(RequestVal(r), REQUEST) && RequestFrom(RequestVal(r)) == Some(r)
  {
    hide UpdateVal, UpdateFrom, Encode, AllShaped;
    UpdateShaped(r.update);
  }

  lemma ContentRequestShaped(r: Request)
    requires r.Read? || r.Write? || r.SetLen?
    ensures Shaped(RequestVal(r), REQUEST) && RequestFrom(RequestVal(r)) == Some(r)
  {
    hide KindVal, KindFrom, UpdateVal, UpdateFrom, Encode, AllShaped;
  }

  lemma NameRequestShaped(r: Request)
    requires !(r.Create? || r.Read? || r.Write? || r.SetLen? || r.SetBasicInfo?)
    ensures Shaped(RequestVal(r), REQUEST) && RequestFrom(RequestVal(r)) == Some(r)
  {
    hide KindVal, KindFrom, UpdateVal, UpdateFrom, Encode, AllShaped;
    if r.CanDelete? {
      KindShaped(r.kind);
    }
  }

  lemma ResponseShaped(r: Response)
    ensures Shaped(ResponseVal(r), RESPONSE) && ResponseFrom(ResponseVal(r)) == Some(r)
  {
    match r {
      case Attr(_) => AttrReplyShaped(r);
      case WriteResult(_, _) => AttrReplyShaped(r);
      case DirEntries(_) => DirEntriesShaped(r);
      case _ => PlainReplyShaped(r);
    }
  }

  lemma AttrReplyShaped(r: Response)
    requires r.Attr? || r.WriteResult?
    ensures Shaped(ResponseVal(r), RESPONSE) && ResponseFrom(ResponseVal(r)) == Some(r)
  {
    hide AttrVal, AttrFrom, Shaped, Encode;
    if r.WriteResult? {
      AttrShaped(r.newAttr);
      NumberShaped(r.written);
      PairShaped(VUint(r.written), AttrVal(r.newAttr), SU32, ATTR);
      VariantShaped(VPair(VUint(r.written), AttrVal(r.newAttr)), RESPONSE.variants, 3);
    } else {
      AttrShaped(r.attr);
      VariantShaped(AttrVal(r.attr), RESPONSE.variants, 0);
    }
  }

  lemma NumberShaped(n: u32)
    ensures Shaped(VUint(n), SU32)
  {
  }

  lemma DirEntriesShaped(r: Response)
    requires r.DirEntries?
    ensures Shaped(ResponseVal(r), RESPONSE) && ResponseFrom(ResponseVal(r)) == Some(r)
  {
    hide EntryVals, EntriesFrom, AllShaped, Encode;
    EntriesShaped(r.entries);
  }

  lemma PlainReplyShaped(r: Response)
    requires r.Data? || r.VolumeInfo? || r.Empty?
    ensures Shaped(ResponseVal(r), RESPONSE) && ResponseFrom(ResponseVal(r)) == Some(r)
  {
    hide AttrVal, AttrFrom, EntryVals, EntriesFrom, AllShaped, Encode;
  }

  lemma ResultShaped(r: RpcResult)
    ensures Shaped(ResultVal(r), RESULT) && ResultFrom(ResultVal(r)) == Some(r)
  {
    hide ResponseVal, ResponseFrom;
    match r {
      case Ok(response) => ResponseShaped(response);
      case Err(_) =>
    }
  }

  // ---- Round trips ----

  // Every request comes back from its bytes, whatever follows them. (Every length that fits a
  // frame is far below the bound, which is what a 64-bit length prefix can say.)
  lemma RequestRoundTrip(r: Request, rest: seq<byte>)
    requires |EncodeRequest(r)| < TWO_64
    ensures DecodeRequest(EncodeRequest(r) + rest) == Some(r)
  {
    hide Encode, Decode, Shaped, Fits, RequestVal, RequestFrom;
    RequestShaped(r);
    ShapedFits(RequestVal(r), REQUEST);
    RoundTrip(REQUEST, RequestVal(r), rest);
  }

  // And so does every reply: a response or an error.
  lemma ResultRoundTrip(r: RpcResult, rest: seq<byte>)
    requires |EncodeResult(r)| < TWO_64
    ensures DecodeResult(EncodeResult(r) + rest) == Some(r)
  {
    hide Encode, Decode, Shaped, Fits, ResultVal, ResultFrom;
    ResultShaped(r);
    ShapedFits(ResultVal(r), RESULT);
    RoundTrip(RESULT, ResultVal(r), rest);
  }
}
