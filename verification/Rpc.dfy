/** Frames: a four-byte little-endian length, a nonce and a sealed message (src/rpc.rs). */
module Rpc {
  import opened Wrappers
  import opened Protocol
  import opened Messages

  const CONNECTION_DATA: byte := 0x00
  const CONNECTION_MONITOR: byte := 0x01
  const NONCE_LEN := 12
  const TAG_LEN := 16

  // Authenticated encryption under one key: what was sealed, and what a ciphertext opens to.
  datatype Cipher = Cipher(
    seal: (seq<byte>, seq<byte>) -> Option<seq<byte>>,
    unseal: (seq<byte>, seq<byte>) -> Option<seq<byte>>)

  // Everything a frame can hold is sealed, sixteen bytes longer, and opens to itself.
  ghost predicate Sound(k: Cipher) {
    && (forall nonce, plain :: |nonce| == NONCE_LEN && |plain| < TWO_32 ==> k.seal(nonce, plain).Some?)
    && (forall nonce, plain :: |nonce| == NONCE_LEN && k.seal(nonce, plain).Some? ==>
          |k.seal(nonce, plain).value| == |plain| + TAG_LEN && k.unseal(nonce, k.seal(nonce, plain).value) == Some(plain))
  }

  lemma SoundCipherExists()
    ensures exists k :: Sound(k)
  {
    var pad := seq(TAG_LEN, _ => 0 as byte);
    var k := Cipher((_, plain) => Some(plain + pad), (_, sealed) => if |sealed| < TAG_LEN then None else Some(sealed[..|sealed| - TAG_LEN]));
    forall nonce: seq<byte>, plain: seq<byte> ensures k.unseal(nonce, k.seal(nonce, plain).value) == Some(plain) {
      assert (plain + pad)[..|plain|] == plain;
    }
    assert Sound(k);
  }

  // A type of message and its bytes.
  datatype Codec<!T> = Codec(encode: T -> seq<byte>, decode: seq<byte> -> Option<T>)

  const REQUESTS: Codec<Request> := Codec(r => EncodeRequest(r), bytes => DecodeRequest(bytes))
  const RESULTS: Codec<RpcResult> := Codec(r => EncodeResult(r), bytes => DecodeResult(bytes))

  ghost predicate Inverts<T(!new)>(codec: Codec<T>) {
    forall v: T :: |codec.encode(v)| < TWO_32 ==> codec.decode(codec.encode(v)) == Some(v)
  }

  lemma CodecsInvert()
    ensures Inverts(REQUESTS) && Inverts(RESULTS)
  {
    forall r: Request | |EncodeRequest(r)| < TWO_32 ensures DecodeRequest(EncodeRequest(r)) == Some(r) {
      RequestRoundTrip(r, []);
      assert EncodeRequest(r) + [] == EncodeRequest(r);
    }
    forall r: RpcResult | |EncodeResult(r)| < TWO_32 ensures DecodeResult(EncodeResult(r)) == Some(r) {
      ResultRoundTrip(r, []);
      assert EncodeResult(r) + [] == EncodeResult(r);
    }
  }

  // ---- What is written and what is read ----

  function LittleEndian(n: u32): (bytes: seq<byte>)
    ensures |bytes| == 4
  {
    [n % 256, n / 256 % 256, n / 0x1_0000 % 256, n / 0x100_0000]
  }

  function FromLittleEndian(bytes: seq<byte>): nat
    requires |bytes| == 4
  {
    var a: nat, b: nat, c: nat, d: nat := bytes[0], bytes[1], bytes[2], bytes[3];
    a + 256 * b + 0x1_0000 * c + 0x100_0000 * d
  }

  lemma LittleEndianRoundTrip(n: u32)
    ensures FromLittleEndian(LittleEndian(n)) == n
  {
    assert n / 0x1_0000 == n / 256 / 256 && n / 0x100_0000 == n / 256 / 256 / 256;
  }

  // The frame of a message, or why there is none.
  function Frame<T>(k: Cipher, codec: Codec<T>, nonce: seq<byte>, value: T): Result<seq<byte>, IoKind> {
    var sealed := k.seal(nonce, codec.encode(value));
    if sealed.None? then Err(KInvalidData)
    else
      var payload := nonce + sealed.value;
      if |payload| >= TWO_32 then Err(KInvalidInput) else Ok(LittleEndian(|payload|) + payload)
  }

  function Unseal<T>(k: Cipher, codec: Codec<T>, payload: seq<byte>): Result<T, IoKind> {
    if |payload| < NONCE_LEN then Err(KInvalidData)
    else
      var plain := k.unseal(payload[..NONCE_LEN], payload[NONCE_LEN..]);
      if plain.None? then Err(KInvalidData)
      else
        var value := codec.decode(plain.value);
        if value.None? then Err(KInvalidData) else Ok(value.value)
  }

  // The message at the front of what a finished stream holds, and what is left.
  function Parse<T>(k: Cipher, codec: Codec<T>, bytes: seq<byte>): (Result<T, IoKind>, seq<byte>) {
    if |bytes| < 4 then (Err(KUnexpectedEof), [])
    else
      var end := 4 + FromLittleEndian(bytes[..4]);
      if |bytes| < end then (Err(KUnexpectedEof), []) else (Unseal(k, codec, bytes[4..end]), bytes[end..])
  }

  // ---- A direction of a connection ----

  // What has been written and not yet read, and how much more can be written before the connection
  // breaks with the fault.
  class Pipe {
    var bytes: seq<byte>
    var room: nat
    const fault: IoKind

    constructor (room: nat, fault: IoKind)
      ensures bytes == [] && this.room == room && this.fault == fault
    {
      bytes, this.room, this.fault := [], room, fault;
    }

    // All of it, or what still got through and the fault.
    method WriteAll(data: seq<byte>) returns (r: Result<(), IoKind>)
      modifies this
      ensures bytes == old(bytes) + Through(data, old(room))
      ensures if |data| <= old(room) then r == Ok(()) && room == old(room) - |data| else r == Err(fault) && room == 0
    {
      if |data| <= room {
        bytes, room := bytes + data, room - |data|;
        return Ok(());
      }
      bytes, room := bytes + data[..room], 0;
      return Err(fault);
    }

    // Fills the whole buffer, or meets the end of the stream.
    method ReadExact(n: nat) returns (r: Result<seq<byte>, IoKind>)
      modifies this
      ensures room == old(room)
      ensures n <= |old(bytes)| ==> r == Ok(old(bytes)[..n]) && bytes == old(bytes)[n..]
      ensures n > |old(bytes)| ==> r == Err(KUnexpectedEof) && bytes == []
    {
      if |bytes| < n {
        bytes := [];
        return Err(KUnexpectedEof);
      }
      var front := bytes[..n];
      bytes := bytes[n..];
      return Ok(front);
    }
  }

  // What gets through of some bytes.
  function Through(data: seq<byte>, room: nat): seq<byte> {
    if |data| <= room then data else data[..room]
  }

  // The whole frame, or as much of it as got through and the fault; or nothing when there is none.
  method WriteMessage<T>(writer: Pipe, k: Cipher, codec: Codec<T>, nonce: seq<byte>, value: T) returns (r: Result<(), IoKind>)
    modifies writer
    ensures match Frame(k, codec, nonce, value)
            case Ok(frame) =>
              && writer.bytes == old(writer.bytes) + Through(frame, old(writer.room))
              && r == if |frame| <= old(writer.room) then Ok(()) else Err(writer.fault)
            case Err(e) => r == Err(e) && writer.bytes == old(writer.bytes) && writer.room == old(writer.room)
  {
    var plain := codec.encode(value);
    var sealed := k.seal(nonce, plain);
    if sealed.None? {
      return Err(KInvalidData);
    }
    var payload := nonce;
    payload := payload + sealed.value;
    if |payload| >= TWO_32 {
      return Err(KInvalidInput);
    }
    ghost var frame, room := LittleEndian(|payload|) + payload, writer.room;
    var length := writer.WriteAll(LittleEndian(|payload|));
    if length.Err? {
      assert LittleEndian(|payload|)[..room] == frame[..room];
      return length;
    }
    r := writer.WriteAll(payload);
    if |frame| > room {
      assert LittleEndian(|payload|) + payload[..room - 4] == frame[..room];
    }
    assert forall rest: seq<byte> :: old(writer.bytes) + LittleEndian(|payload|) + rest == old(writer.bytes) + (LittleEndian(|payload|) + rest);
  }

  method ReadMessage<T>(reader: Pipe, k: Cipher, codec: Codec<T>) returns (r: Result<T, IoKind>)
    modifies reader
    ensures (r, reader.bytes) == Parse(k, codec, old(reader.bytes))
  {
    ghost var all := reader.bytes;
    var lenBytes := reader.ReadExact(4);
    if lenBytes.Err? {
      return Err(lenBytes.error);
    }
    var len := FromLittleEndian(lenBytes.value);
    var payload := reader.ReadExact(len);
    if payload.Err? {
      return Err(payload.error);
    }
    assert payload.value == all[4..4 + len] && reader.bytes == all[4 + len..];
    if |payload.value| < NONCE_LEN {
      return Err(KInvalidData);
    }
    var plain := k.unseal(payload.value[..NONCE_LEN], payload.value[NONCE_LEN..]);
    if plain.None? {
      return Err(KInvalidData);
    }
    var value := codec.decode(plain.value);
    if value.None? {
      return Err(KInvalidData);
    }
    return Ok(value.value);
  }

  // ---- Laws ----

  // A message has a frame exactly when nonce, tag and bytes fit a 32-bit length.
  lemma FrameExists<T>(k: Cipher, codec: Codec<T>, nonce: seq<byte>, value: T)
    requires Sound(k) && |nonce| == NONCE_LEN
    ensures Frame(k, codec, nonce, value).Ok? <==> |codec.encode(value)| + NONCE_LEN + TAG_LEN < TWO_32
    ensures match Frame(k, codec, nonce, value)
            case Ok(frame) => |frame| == |codec.encode(value)| + NONCE_LEN + TAG_LEN + 4
            case Err(e) => e == KInvalidInput || e == KInvalidData
  {
    var plain := codec.encode(value);
    if |plain| < TWO_32 {
      assert k.seal(nonce, plain).Some?;
    }
  }

  // Reading a frame gives the message back and consumes the frame, no more and no less.
  lemma FrameRoundTrip<T(!new)>(k: Cipher, codec: Codec<T>, nonce: seq<byte>, value: T, rest: seq<byte>)
    requires Sound(k) && Inverts(codec) && |nonce| == NONCE_LEN && Frame(k, codec, nonce, value).Ok?
    ensures Parse(k, codec, Frame(k, codec, nonce, value).value + rest) == (Ok(value), rest)
  {
    var plain := codec.encode(value);
    FrameExists(k, codec, nonce, value);
    var payload := nonce + k.seal(nonce, plain).value;
    assert payload[..NONCE_LEN] == nonce && payload[NONCE_LEN..] == k.seal(nonce, plain).value;
    LittleEndianRoundTrip(|payload|);
    var bytes := LittleEndian(|payload|) + payload + rest;
    assert bytes[..4] == LittleEndian(|payload|) && bytes[4..4 + |payload|] == payload && bytes[4 + |payload|..] == rest;
  }

  // A frame cut short anywhere is the end of the stream, never a message.
  lemma CutFrameIsError<T>(k: Cipher, codec: Codec<T>, nonce: seq<byte>, value: T, n: nat)
    requires Frame(k, codec, nonce, value).Ok? && n < |Frame(k, codec, nonce, value).value|
    ensures Parse(k, codec, Frame(k, codec, nonce, value).value[..n]) == (Err(KUnexpectedEof), [])
  {
    var frame := Frame(k, codec, nonce, value).value;
    var length := |frame| - 4;
    if n >= 4 {
      assert frame[..n][..4] == LittleEndian(length);
      LittleEndianRoundTrip(length);
    }
  }

  // Whatever four bytes of length and that many bytes hold, they are consumed whole; the message is
  // read exactly when there is a nonce, the rest opens, and what it opens to decodes; all else is
  // invalid data.
  lemma AnyFrameIsConsumed<T>(k: Cipher, codec: Codec<T>, payload: seq<byte>, rest: seq<byte>)
    requires |payload| < TWO_32
    ensures var (message, left) := Parse(k, codec, LittleEndian(|payload|) + payload + rest);
            && left == rest
            && (message.Ok? <==> |payload| >= 12 && k.unseal(payload[..12], payload[12..]).Some?
                                 && codec.decode(k.unseal(payload[..12], payload[12..]).value).Some?)
            && (message.Ok? ==> codec.decode(k.unseal(payload[..12], payload[12..]).value) == Some(message.value))
            && (message.Err? ==> message.error == KInvalidData)
  {
    LittleEndianRoundTrip(|payload|);
    var bytes := LittleEndian(|payload|) + payload + rest;
    assert bytes[..4] == LittleEndian(|payload|) && bytes[4..4 + |payload|] == payload && bytes[4 + |payload|..] == rest;
  }

  // A frame sealed under another key, when this key refuses it, is invalid data; it is consumed
  // all the same.
  lemma ForeignFrameIsRefused<T>(k: Cipher, k': Cipher, codec: Codec<T>, nonce: seq<byte>, value: T, rest: seq<byte>)
    requires Sound(k) && |nonce| == NONCE_LEN && Frame(k, codec, nonce, value).Ok?
    requires k'.unseal(nonce, k.seal(nonce, codec.encode(value)).value) == None
    ensures Parse(k', codec, Frame(k, codec, nonce, value).value + rest) == (Err(KInvalidData), rest)
  {
    var sealed := k.seal(nonce, codec.encode(value)).value;
    var payload := nonce + sealed;
    assert payload[..NONCE_LEN] == nonce && payload[NONCE_LEN..] == sealed;
    LittleEndianRoundTrip(|payload|);
    var bytes := LittleEndian(|payload|) + payload + rest;
    assert bytes[..4] == LittleEndian(|payload|) && bytes[4..4 + |payload|] == payload && bytes[4 + |payload|..] == rest;
  }

  // ---- Many messages on one stream ----

  datatype Sealed<T> = Sealed(nonce: seq<byte>, value: T)

  predicate AllFramed<T>(k: Cipher, codec: Codec<T>, items: seq<Sealed<T>>) {
    forall i :: 0 <= i < |items| ==> |items[i].nonce| == NONCE_LEN && Frame(k, codec, items[i].nonce, items[i].value).Ok?
  }

  function Stream<T>(k: Cipher, codec: Codec<T>, items: seq<Sealed<T>>): seq<byte>
    requires AllFramed(k, codec, items)
  {
    if items == [] then []
    else Frame(k, codec, items[0].nonce, items[0].value).value + Stream(k, codec, items[1..])
  }

  function Values<T>(items: seq<Sealed<T>>): seq<T> {
    if items == [] then [] else [items[0].value] + Values(items[1..])
  }

  // Reading messages until the stream is empty or a read fails.
  function ParseAll<T>(k: Cipher, codec: Codec<T>, bytes: seq<byte>): seq<T>
    decreases |bytes|
  {
    var (message, rest) := Parse(k, codec, bytes);
    if message.Err? || |rest| >= |bytes| then [] else [message.value] + ParseAll(k, codec, rest)
  }

  // Frames one after another, the last one perhaps cut short, are read as the messages sent.
  lemma {:induction false} StreamRoundTrip<T(!new)>(k: Cipher, codec: Codec<T>, items: seq<Sealed<T>>, nonce: seq<byte>, last: T, n: nat)
    requires Sound(k) && Inverts(codec) && AllFramed(k, codec, items)
    requires Frame(k, codec, nonce, last).Ok? && n < |Frame(k, codec, nonce, last).value|
    ensures ParseAll(k, codec, Stream(k, codec, items) + Frame(k, codec, nonce, last).value[..n]) == Values(items)
  {
    hide Sound, Inverts, Frame, Parse;
    var cut := Frame(k, codec, nonce, last).value[..n];
    if items == [] {
      CutFrameIsError(k, codec, nonce, last, n);
      assert Stream(k, codec, items) + cut == cut;
    } else {
      var frame := Frame(k, codec, items[0].nonce, items[0].value).value;
      var more := Stream(k, codec, items[1..]) + cut;
      FrameExists(k, codec, items[0].nonce, items[0].value);
      FrameRoundTrip(k, codec, items[0].nonce, items[0].value, more);
      StreamRoundTrip(k, codec, items[1..], nonce, last, n);
      assert Stream(k, codec, items) + cut == frame + more;
    }
  }
}
