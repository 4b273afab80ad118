/** What the bytes on the wire are, spelled out: UTF-8 after section 3 of RFC 3629, varints after the
    postcard wire format specification, the messages of src/protocol.rs, the frames of src/rpc.rs. */
module WireForms {
  import opened Wrappers
  import opened Protocol
  import opened Postcard
  import opened Messages
  import opened Rpc
  import Utf8

  // ---- UTF-8 ----

  function At(bytes: seq<byte>, i: nat): nat
    requires i < |bytes|
  {
    bytes[i]
  }

  // 10xxxxxx
  predicate Continues(bytes: seq<byte>, i: nat)
    requires i < |bytes|
  {
    bytes[i] / 0x40 == 2
  }

  // The bits of a character lie in the byte patterns 0xxxxxxx; 110xxxxx 10xxxxxx; 1110xxxx and two
  // 10xxxxxx; 11110xxx and three 10xxxxxx; the shortest that holds it.
  predicate IsCharForm(b: seq<byte>, n: nat) {
    if n < 0x80 then b == [n]
    else if n < 0x800 then
      |b| == 2 && At(b, 0) / 0x20 == 6 && Continues(b, 1) && n == At(b, 0) % 0x20 * 0x40 + At(b, 1) % 0x40
    else if n < 0x1_0000 then
      && |b| == 3 && At(b, 0) / 0x10 == 14 && Continues(b, 1) && Continues(b, 2)
      && n == (At(b, 0) % 0x10 * 0x40 + At(b, 1) % 0x40) * 0x40 + At(b, 2) % 0x40
    else
      && |b| == 4 && At(b, 0) / 8 == 30 && Continues(b, 1) && Continues(b, 2) && Continues(b, 3)
      && n == ((At(b, 0) % 8 * 0x40 + At(b, 1) % 0x40) * 0x40 + At(b, 2) % 0x40) * 0x40 + At(b, 3) % 0x40
  }

  lemma CharForm(c: char, b: seq<byte>)
    ensures b == Utf8.EncodeChar(c) <==> IsCharForm(b, c as int)
  {
    var e, n := Utf8.EncodeChar(c), c as int;
    assert n / 0x1000 == n / 0x40 / 0x40 && n / 0x4_0000 == n / 0x40 / 0x40 / 0x40;
    assert IsCharForm(e, n);
    if IsCharForm(b, n) {
      FormIsOne(b, e, n);
    }
  }

  lemma FormIsOne(a: seq<byte>, b: seq<byte>, n: nat)
    requires IsCharForm(a, n) && IsCharForm(b, n)
    ensures a == b
  {
    assert At(a, 0) == At(b, 0);
    if n >= 0x80 {
      assert At(a, 1) == At(b, 1);
    }
    if n >= 0x800 {
      assert At(a, 2) == At(b, 2);
    }
    if n >= 0x1_0000 {
      assert At(a, 3) == At(b, 3);
    }
  }

  // The character read at the front is written as the bytes it was read from: no other form of it
  // is accepted.
  lemma CharIsCanonical(bytes: seq<byte>)
    requires bytes != [] && Utf8.DecodeChar(bytes).Some?
    ensures var (c, n) := Utf8.DecodeChar(bytes).value;
            0 < n <= |bytes| && Utf8.EncodeChar(c) == bytes[..n]
  {
    var (c, n) := Utf8.DecodeChar(bytes).value;
    assert forall i :: 1 <= i < n ==> Utf8.IsContinuation(bytes[i]);
    if n == 1 {
      assert IsCharForm(bytes[..n], c as int);
    } else if n == 2 {
      assert 0x80 <= bytes[1] < 0xC0;
      assert IsCharForm(bytes[..n], c as int);
    } else if n == 3 {
      assert 0x80 <= bytes[1] < 0xC0 && 0x80 <= bytes[2] < 0xC0;
      assert IsCharForm(bytes[..n], c as int);
    } else {
      assert 0x80 <= bytes[1] < 0xC0 && 0x80 <= bytes[2] < 0xC0 && 0x80 <= bytes[3] < 0xC0;
      assert IsCharForm(bytes[..n], c as int);
    }
    CharForm(c, bytes[..n]);
  }

  // So bytes are accepted exactly when they are what some string is written as.
  lemma TextIsCanonical(bytes: seq<byte>)
    ensures Utf8.Decode(bytes).Some? <==> exists s :: bytes == Utf8.Encode(s)
  {
    if s :| bytes == Utf8.Encode(s) {
      Utf8.RoundTrip(s);
    }
    if Utf8.Decode(bytes).Some? {
      DecodedIsEncoded(bytes);
    }
  }

  lemma {:induction false} DecodedIsEncoded(bytes: seq<byte>)
    requires Utf8.Decode(bytes).Some?
    ensures Utf8.Encode(Utf8.Decode(bytes).value) == bytes
  {
    hide Utf8.DecodeChar, Utf8.EncodeChar;
    if bytes != [] {
      CharIsCanonical(bytes);
      var n := Utf8.DecodeChar(bytes).value.1;
      DecodedIsEncoded(bytes[n..]);
      assert bytes == bytes[..n] + bytes[n..];
      assert Utf8.Decode(bytes).value[1..] == Utf8.Decode(bytes[n..]).value;
    }
  }

  // ---- Numbers ----

  // Seven bits to a byte, the lowest first; all but the last byte have the high bit set.
  predicate IsVarint(bytes: seq<byte>) {
    bytes != [] && bytes[|bytes| - 1] < 128 && forall i :: 0 <= i < |bytes| - 1 ==> bytes[i] >= 128
  }

  function VarintValue(bytes: seq<byte>): nat {
    if bytes == [] then 0 else bytes[0] % 128 + 128 * VarintValue(bytes[1..])
  }

  // A number is written in that form, in as few bytes as it takes.
  lemma {:induction false} VarintForm(n: nat)
    ensures var bytes := EncodeVarint(n);
            IsVarint(bytes) && VarintValue(bytes) == n && (|bytes| > 1 ==> bytes[|bytes| - 1] != 0)
  {
    if n >= 128 {
      VarintForm(n / 128);
      assert EncodeVarint(n)[1..] == EncodeVarint(n / 128);
    }
  }

  lemma {:induction false} VarintReads(bytes: seq<byte>, k: nat, left: nat, lastMax: nat)
    requires k <= |bytes| && k <= left && lastMax < 128 && IsVarint(bytes[..k]) && VarintValue(bytes[..k]) < Capacity(left, lastMax)
    ensures DecodeVarint(bytes, left, lastMax) == Some((VarintValue(bytes[..k]), bytes[k..]))
    decreases left
  {
    var front := bytes[..k];
    assert front[0] == bytes[0];
    if k == 1 {
      assert front[1..] == [] && VarintValue(front) == bytes[0];
    } else {
      assert front[1..] == bytes[1..][..k - 1] && bytes[1..][k - 1..] == bytes[k..];
      assert bytes[0] >= 128 && front[1..][k - 2] == front[k - 1];
      VarintReads(bytes[1..], k - 1, left - 1, lastMax);
    }
  }

  lemma {:induction false} VarintWasRead(bytes: seq<byte>, left: nat, lastMax: nat) returns (k: nat)
    requires lastMax < 128 && DecodeVarint(bytes, left, lastMax).Some?
    ensures k <= |bytes| && k <= left && IsVarint(bytes[..k]) && VarintValue(bytes[..k]) < Capacity(left, lastMax)
    decreases left
  {
    if bytes[0] < 128 {
      k := 1;
      assert bytes[..1][1..] == [];
      assert left > 1 ==> Capacity(left - 1, lastMax) >= 1 by { CapacityPositive(left - 1, lastMax); }
    } else {
      var j := VarintWasRead(bytes[1..], left - 1, lastMax);
      k := j + 1;
      assert bytes[..k][1..] == bytes[1..][..j];
      assert bytes[..k][k - 1] == bytes[1..][..j][j - 1];
      forall i | 0 <= i < k - 1 ensures bytes[..k][i] >= 128 {
        if i > 0 {
          assert bytes[..k][i] == bytes[1..][..j][i - 1];
        }
      }
    }
  }

  lemma {:induction false} CapacityPositive(left: nat, lastMax: nat)
    ensures left > 0 ==> Capacity(left, lastMax) >= 1
  {
    if left > 1 {
      CapacityPositive(left - 1, lastMax);
    }
  }

  // A 32-bit number is read exactly where at most five bytes in that form say one; a 64-bit number
  // likewise in at most ten.
  lemma NumbersRead(bytes: seq<byte>, n: nat, rest: seq<byte>)
    ensures DecodeU32(bytes) == Some((n, rest)) <==>
            exists k: nat :: k <= |bytes| && k <= 5 && IsVarint(bytes[..k]) && VarintValue(bytes[..k]) == n && n < 0x1_0000_0000 && rest == bytes[k..]
    ensures DecodeU64(bytes) == Some((n, rest)) <==>
            exists k: nat :: k <= |bytes| && k <= 10 && IsVarint(bytes[..k]) && VarintValue(bytes[..k]) == n && n < 0x1_0000_0000_0000_0000 && rest == bytes[k..]
  {
    hide DecodeVarint, Capacity, IsVarint, VarintValue;
    Capacities();
    if DecodeU32(bytes).Some? {
      var k := VarintWasRead(bytes, 5, 15);
      VarintReads(bytes, k, 5, 15);
    }
    forall k: nat | k <= |bytes| && k <= 5 && IsVarint(bytes[..k]) && VarintValue(bytes[..k]) < TWO_32
      ensures DecodeU32(bytes) == Some((VarintValue(bytes[..k]), bytes[k..]))
    {
      VarintReads(bytes, k, 5, 15);
    }
    if DecodeU64(bytes).Some? {
      var k := VarintWasRead(bytes, 10, 1);
      VarintReads(bytes, k, 10, 1);
    }
    forall k: nat | k <= |bytes| && k <= 10 && IsVarint(bytes[..k]) && VarintValue(bytes[..k]) < TWO_64
      ensures DecodeU64(bytes) == Some((VarintValue(bytes[..k]), bytes[k..]))
    {
      VarintReads(bytes, k, 10, 1);
    }
  }

  // The specification's own table of zigzag numbers.
  lemma ZigZagTable()
    ensures ZigZag(0) == 0 && ZigZag(-1) == 1 && ZigZag(1) == 2 && ZigZag(-2) == 3
    ensures ZigZag(2147483647) == 4294967294 && ZigZag(-2147483648) == 4294967295
  {
  }

  // ---- Messages ----

  function Number(n: nat): seq<byte> {
    EncodeVarint(n)
  }

  function Text(s: string): seq<byte> {
    Number(|Utf8.Encode(s)|) + Utf8.Encode(s)
  }

  function Flag(b: bool): seq<byte> {
    if b then [1] else [0]
  }

  function Time(t: Option<FileTimeValue>): seq<byte> {
    if t.None? then [0] else [1] + (Number(ZigZag(t.value.secs)) + Number(t.value.nanos))
  }

  function AttrBytes(a: FileAttr): seq<byte> {
    Flag(a.kind == Directory) + (Number(a.size) + (Number(a.allocatedSize)
    + (Time(a.created) + (Time(a.accessed) + (Time(a.modified) + (Time(a.changed)
    + (Flag(a.readonly) + if a.mode.None? then [0] else [1] + Number(a.mode.value))))))))
  }

  // Encoding, one level at a time.
  lemma EncodeRules()
    ensures Encode(VUnit) == []
    ensures forall b {:trigger Encode(VBool(b))} :: Encode(VBool(b)) == Flag(b)
    ensures forall n {:trigger Encode(VUint(n))} :: Encode(VUint(n)) == Number(n)
    ensures forall i {:trigger Encode(VInt(i))} :: Encode(VInt(i)) == Number(ZigZag(i))
    ensures forall s {:trigger Encode(VStr(s))} :: Encode(VStr(s)) == Text(s)
    ensures forall d {:trigger Encode(VBytes(d))} :: Encode(VBytes(d)) == Number(|d|) + d
    ensures forall v {:trigger Encode(VOption(true, v))} :: Encode(VOption(true, v)) == [1] + Encode(v)
    ensures forall v {:trigger Encode(VOption(false, v))} :: Encode(VOption(false, v)) == [0]
    ensures forall a, b {:trigger Encode(VPair(a, b))} :: Encode(VPair(a, b)) == Encode(a) + Encode(b)
    ensures forall items {:trigger Encode(VSeq(items))} :: Encode(VSeq(items)) == Number(Length(items)) + EncodeAll(items)
    ensures forall tag: byte, v {:trigger Encode(VEnum(tag, v))} :: tag < 128 ==> Encode(VEnum(tag, v)) == [tag] + Encode(v)
  {
  }

  lemma TimeLayout(t: Option<FileTimeValue>)
    ensures Encode(OptTimeVal(t)) == Time(t)
  {
    hide Encode, Number;
    EncodeRules();
  }

  lemma KindLayout(kind: EntryKind)
    ensures Encode(KindVal(kind)) == Flag(kind == Directory)
  {
    EncodeRules();
  }

  lemma AttrLayout(a: FileAttr)
    ensures Encode(AttrVal(a)) == AttrBytes(a)
  {
    hide Encode, Number, Time, OptTimeVal, KindVal, Flag;
    EncodeRules();
    KindLayout(a.kind);
    TimeLayout(a.created);
    TimeLayout(a.accessed);
    TimeLayout(a.modified);
    TimeLayout(a.changed);
  }

  // Requests, by variant: the number of the variant, then its fields in order.
  lemma RequestLayout(r: Request)
    ensures match r
            case Stat(path) => EncodeRequest(r) == [0] + Text(path)
            case Open(path) => EncodeRequest(r) == [1] + Text(path)
            case Create(path, kind, attributes, allocation) =>
              EncodeRequest(r) == [2] + (Text(path) + (Flag(kind == Directory) + (Number(attributes) + Number(allocation))))
            case ReadDir(path) => EncodeRequest(r) == [3] + Text(path)
            case Read(path, offset, length) => EncodeRequest(r) == [4] + (Text(path) + (Number(offset) + Number(length)))
            case Write(path, offset, data, eof) =>
              EncodeRequest(r) == [5] + (Text(path) + (Number(offset) + ((Number(|data|) + data) + Flag(eof))))
            case CanDelete(path, kind) => EncodeRequest(r) == [6] + (Text(path) + Flag(kind == Directory))
            case RemoveFile(path) => EncodeRequest(r) == [7] + Text(path)
            case RemoveDir(path) => EncodeRequest(r) == [8] + Text(path)
            case Rename(path, newPath, replace) => EncodeRequest(r) == [9] + (Text(path) + (Text(newPath) + Flag(replace)))
            case SetLen(path, size, allocation) => EncodeRequest(r) == [10] + (Text(path) + (Number(size) + Flag(allocation)))
            case Flush(target) => EncodeRequest(r) == [11] + if target.None? then [0] else [1] + Text(target.value)
            case SetBasicInfo(path, u) =>
              EncodeRequest(r) == [12] + (Text(path) + ((if u.readonly.None? then [0] else [1] + Flag(u.readonly.value))
                + (Time(u.creationTime) + (Time(u.lastAccessTime) + (Time(u.lastWriteTime) + Time(u.changeTime))))))
            case GetVolumeInfo => EncodeRequest(r) == [13]
  {
    hide Encode, Number, Text, Time, Flag, KindVal, UpdateVal;
    EncodeRules();
    match r {
      case Create(_, kind, _, _) => KindLayout(kind);
      case CanDelete(_, kind) => KindLayout(kind);
      case SetBasicInfo(_, u) => UpdateLayout(u);
      case _ =>
    }
  }

  lemma UpdateLayout(u: BasicInfoUpdate)
    ensures Encode(UpdateVal(u)) ==
            (if u.readonly.None? then [0] else [1] + Flag(u.readonly.value))
            + (Time(u.creationTime) + (Time(u.lastAccessTime) + (Time(u.lastWriteTime) + Time(u.changeTime))))
  {
    hide Encode, Number, Time, Flag, OptTimeVal;
    EncodeRules();
    TimeLayout(u.creationTime);
    TimeLayout(u.lastAccessTime);
    TimeLayout(u.lastWriteTime);
    TimeLayout(u.changeTime);
  }

  function EntryBytes(entries: seq<DirEntry>): seq<byte> {
    if entries == [] then [] else Text(entries[0].name) + AttrBytes(entries[0].attr) + EntryBytes(entries[1..])
  }

  lemma {:induction false} EntriesLayout(entries: seq<DirEntry>)
    ensures EncodeAll(EntryVals(entries)) == EntryBytes(entries) && Length(EntryVals(entries)) == |entries|
  {
    hide Encode, Text, AttrVal, AttrBytes;
    EncodeRules();
    if entries != [] {
      AttrLayout(entries[0].attr);
      EntriesLayout(entries[1..]);
    }
  }

  // Replies: 0 and a response, or 1, a code and a text.
  lemma ResultLayout(r: RpcResult)
    ensures match r
            case Ok(Attr(a)) => EncodeResult(r) == [0] + ([0] + AttrBytes(a))
            case Ok(DirEntries(entries)) => EncodeResult(r) == [0] + ([1] + (Number(|entries|) + EntryBytes(entries)))
            case Ok(Data(bytes)) => EncodeResult(r) == [0] + ([2] + (Number(|bytes|) + bytes))
            case Ok(WriteResult(written, a)) => EncodeResult(r) == [0] + ([3] + (Number(written) + AttrBytes(a)))
            case Ok(VolumeInfo(info)) =>
              EncodeResult(r) == [0] + ([4] + (Number(info.totalSize) + (Number(info.freeSize) + Text(info.volumeLabel))))
            case Ok(Empty) => EncodeResult(r) == [0] + [5]
            case Err(error) =>
              EncodeResult(r) == [1] + ([match error.code
                                         case NotFound => 0
                                         case AlreadyExists => 1
                                         case PermissionDenied => 2
                                         case InvalidInput => 3
                                         case NotDirectory => 4
                                         case IsDirectory => 5
                                         case DirectoryNotEmpty => 6
                                         case Unsupported => 7
                                         case Unexpected => 8] + Text(error.message))
  {
    hide Encode, Number, Text, AttrVal, AttrBytes, EntryVals, EntryBytes;
    EncodeRules();
    match r {
      case Ok(Attr(a)) => AttrLayout(a);
      case Ok(WriteResult(_, a)) => AttrLayout(a);
      case Ok(DirEntries(entries)) => EntriesLayout(entries);
      case _ =>
    }
  }

  // ---- Frames ----

  // The length of what follows in four bytes, the lowest first; twelve bytes of nonce; and what the
  // message was sealed to. A data connection starts with 0, a monitor connection with 1.
  lemma FrameLayout<T>(k: Cipher, codec: Codec<T>, nonce: seq<byte>, value: T)
    requires |nonce| == 12 && Frame(k, codec, nonce, value).Ok?
    ensures var frame := Frame(k, codec, nonce, value).value;
            && |frame| >= 16 && At(frame, 0) + 0x100 * At(frame, 1) + 0x1_0000 * At(frame, 2) + 0x100_0000 * At(frame, 3) == |frame| - 4
            && frame[4..16] == nonce && k.seal(nonce, codec.encode(value)) == Some(frame[16..])
    ensures CONNECTION_DATA == 0 && CONNECTION_MONITOR == 1 && NONCE_LEN == 12 && TAG_LEN == 16
  {
    var frame := Frame(k, codec, nonce, value).value;
    var sealed := k.seal(nonce, codec.encode(value)).value;
    assert frame == LittleEndian(|nonce + sealed|) + (nonce + sealed);
    assert frame[16..] == sealed;
    LittleEndianRoundTrip(|frame| - 4);
    assert frame[..4] == LittleEndian(|frame| - 4);
    assert frame[0] == frame[..4][0] && frame[1] == frame[..4][1] && frame[2] == frame[..4][2] && frame[3] == frame[..4][3];
  }
}
