/** Connections end to end: the client frames one request, the server serves accepted connections
    one at a time, the client reads one reply (RpcClient::send in
    crates/netfilum-client/src/rpc_client.rs, RpcServer::serve and handle_data in
    crates/netfilum-server/src/server.rs). */
module Connections {
  import opened Wrappers
  import opened Protocol
  import opened Postcard
  import opened Messages
  import opened Rpc
  import opened FileTree
  import opened ServerSpec
  import opened ServerInvariant
  import opened Runs
  import opened Server
  import Spec = ClientSpec

  // What the peer of an accepted connection sends before it closes, how much of a reply gets back
  // to it, and what the server draws on while it handles it: a nonce, its environment, and the text
  // of an error it may report.
  datatype Accepted = Accepted(bytes: seq<byte>, room: nat, nonce: seq<byte>, env: Env, text: string)

  function OnWire(reply: Reply, text: string): RpcResult {
    match reply
    case Ok(response) => Ok(response)
    case Err(code) => Err(RpcError(code, text))
  }

  // The request a connection carries, if it is a data connection with a whole, genuine frame.
  function Carried(k: Cipher, bytes: seq<byte>): Option<Request> {
    if bytes == [] || bytes[0] != CONNECTION_DATA then None
    else
      var message := Parse(k, REQUESTS, bytes[1..]).0;
      if message.Ok? then Some(message.value) else None
  }

  function FrameOrNothing<T>(k: Cipher, codec: Codec<T>, nonce: seq<byte>, value: T): seq<byte> {
    var frame := Frame(k, codec, nonce, value);
    if frame.Ok? then frame.value else []
  }

  // The disk after one connection, and the bytes sent back on it.
  ghost function Handle(ex: Export, fs: Fs, k: Cipher, a: Accepted): (Fs, seq<byte>)
    requires Served(ex.root, fs)
  {
    var request := Carried(k, a.bytes);
    if request.None? then (fs, [])
    else
      var (fs', reply) := Dispatch(ex, fs, request.value, a.env);
      (fs', Through(FrameOrNothing(k, RESULTS, a.nonce, OnWire(reply, a.text)), a.room))
  }

  lemma HandleKeepsServed(ex: Export, fs: Fs, k: Cipher, a: Accepted)
    requires Served(ex.root, fs)
    ensures Served(ex.root, Handle(ex, fs, k, a).0)
  {
    hide Served, Dispatch, Carried;
    if Carried(k, a.bytes).Some? {
      DispatchKeepsServed(ex, fs, Carried(k, a.bytes).value, a.env);
    }
  }

  // What the thread of a monitor connection does: read until the peer closes.
  method WaitForDisconnect(stream: Pipe)
    modifies stream
    ensures stream.bytes == [] && stream.room == old(stream.room)
  {
    while stream.bytes != []
      invariant stream.room == old(stream.room)
      decreases |stream.bytes|
    {
      var _ := stream.ReadExact(1);
    }
  }

  // Accepting: the tag, then the request, then the reply.
  method HandleConnection(server: RpcServer, k: Cipher, up: Pipe, down: Pipe, nonce: seq<byte>, env: Env, text: string)
    requires server.Valid() && up != down && down.bytes == []
    modifies server.disk, up, down
    ensures server.Valid()
    ensures (server.disk.fs, down.bytes) ==
            Handle(server.Exported(), old(server.disk.fs), k, Accepted(old(up.bytes), old(down.room), nonce, env, text))
  {
    hide Dispatch, Parse, Frame;
    ghost var sent := up.bytes;
    var tag := up.ReadExact(1);
    if tag.Err? {
      return;
    }
    assert tag.value == [sent[0]];
    if tag.value[0] == CONNECTION_DATA {
      var request := ReadMessage(up, k, REQUESTS);
      if request.Err? {
        return;
      }
      var reply := server.Dispatched(request.value, env);
      var written := WriteMessage(down, k, RESULTS, nonce, OnWire(reply, text));
      assert down.bytes == Through(FrameOrNothing(k, RESULTS, nonce, OnWire(reply, text)), old(down.room));
    } else if tag.value[0] == CONNECTION_MONITOR {
      WaitForDisconnect(up);
    }
  }

  // ---- The accept loop, over the connections that arrive ----

  ghost function HandleAll(ex: Export, fs: Fs, k: Cipher, arrivals: seq<Accepted>): (r: (Fs, seq<seq<byte>>))
    requires Served(ex.root, fs)
    ensures Served(ex.root, r.0)
    decreases |arrivals|
  {
    if arrivals == [] then (fs, [])
    else
      var (before, replies) := HandleAll(ex, fs, k, arrivals[..|arrivals| - 1]);
      var a := arrivals[|arrivals| - 1];
      HandleKeepsServed(ex, before, k, a);
      var (after, reply) := Handle(ex, before, k, a);
      (after, replies + [reply])
  }

  method Serve(server: RpcServer, k: Cipher, arrivals: seq<Accepted>) returns (replies: seq<seq<byte>>)
    requires server.Valid()
    modifies server.disk
    ensures server.Valid()
    ensures (server.disk.fs, replies) == HandleAll(server.Exported(), old(server.disk.fs), k, arrivals)
  {
    hide Served, Handle;
    ghost var fs := server.disk.fs;
    replies := [];
    for i := 0 to |arrivals|
      invariant server.Valid() && Served(server.root, fs)
      invariant (server.disk.fs, replies) == HandleAll(server.Exported(), fs, k, arrivals[..i])
    {
      var a := arrivals[i];
      var up := new Pipe(|a.bytes|, KConnectionReset);
      var down := new Pipe(a.room, KConnectionReset);
      var arrived := up.WriteAll(a.bytes);
      assert [] + a.bytes == a.bytes;
      HandleConnection(server, k, up, down, a.nonce, a.env, a.text);
      replies := replies + [down.bytes];
      assert arrivals[..i + 1][..i] == arrivals[..i];
    }
    assert arrivals[..|arrivals|] == arrivals;
  }

  // The calls the connections carry, in the order they were accepted.
  function CarriedCalls(k: Cipher, arrivals: seq<Accepted>): seq<Call> {
    if arrivals == [] then []
    else
      var a := arrivals[|arrivals| - 1];
      var request := Carried(k, a.bytes);
      CarriedCalls(k, arrivals[..|arrivals| - 1]) + if request.Some? then [Call(request.value, a.env)] else []
  }

  // However the connections misbehave, the disk is the one a run of the requests they carry leaves,
  // at most one request each, in the order of acceptance.
  lemma {:induction false} ServingIsARun(ex: Export, fs: Fs, k: Cipher, arrivals: seq<Accepted>)
    requires Served(ex.root, fs)
    ensures HandleAll(ex, fs, k, arrivals).0 == Run(ex, fs, CarriedCalls(k, arrivals))
    ensures |CarriedCalls(k, arrivals)| <= |arrivals|
  {
    hide Served, Dispatch, Carried;
    if arrivals != [] {
      var front, a := arrivals[..|arrivals| - 1], arrivals[|arrivals| - 1];
      ServingIsARun(ex, fs, k, front);
      var calls, request := CarriedCalls(k, front), Carried(k, a.bytes);
      if request.Some? {
        var all := calls + [Call(request.value, a.env)];
        assert all[..|all| - 1] == calls;
      } else {
        assert calls + [] == calls;
      }
    }
  }

  // A monitor connection, an unknown tag, or no tag at all: nothing happens and nothing is sent.
  lemma OtherTagsDoNothing(ex: Export, fs: Fs, k: Cipher, a: Accepted)
    requires Served(ex.root, fs) && (a.bytes == [] || a.bytes[0] != CONNECTION_DATA)
    ensures Handle(ex, fs, k, a) == (fs, [])
  {
  }

  // A request cut short anywhere, even just after the tag, is never run.
  lemma CutRequestDoesNothing(ex: Export, fs: Fs, k: Cipher, nonce: seq<byte>, request: Request, n: nat, a: Accepted)
    requires Served(ex.root, fs) && Frame(k, REQUESTS, nonce, request).Ok?
    requires n < |Frame(k, REQUESTS, nonce, request).value|
    requires a.bytes == [CONNECTION_DATA] + Frame(k, REQUESTS, nonce, request).value[..n]
    ensures Handle(ex, fs, k, a) == (fs, [])
  {
    hide Served, Frame, Parse, Dispatch;
    CutFrameIsError(k, REQUESTS, nonce, request, n);
    assert a.bytes[1..] == Frame(k, REQUESTS, nonce, request).value[..n];
  }

  // ---- One send over the wire ----

  // The connection as the client sees it, from how much gets through each way: a request that does
  // not get through whole, or is too long for a frame, is lost before the server runs it; a reply
  // that does not, or is, is lost after.
  ghost function WireLink(ex: Export, fs: Fs, k: Cipher, nonce: seq<byte>, request: Request, room: nat, fault: IoKind, a: Accepted, ioText: string): Spec.Link
    requires Served(ex.root, fs)
  {
    var frame := Frame(k, REQUESTS, nonce, request);
    if room == 0 then Spec.LostBefore(fault, ioText)
    else if frame.Err? then Spec.LostBefore(frame.error, ioText)
    else if 1 + |frame.value| > room then Spec.LostBefore(fault, ioText)
    else
      var reply := Frame(k, RESULTS, a.nonce, OnWire(Dispatch(ex, fs, request, a.env).1, a.text));
      if reply.Err? || |reply.value| > a.room then Spec.LostAfter(KUnexpectedEof, ioText) else Spec.Up
  }

  function AnswerOf(message: Result<RpcResult, IoKind>, ioText: string): Spec.Answer {
    match message
    case Err(kind) => Err(Spec.Transport(kind, ioText))
    case Ok(Ok(response)) => Ok(response)
    case Ok(Err(error)) => Err(Spec.Refused(error.code))
  }

  // Wherever the connection breaks, the send is the abstract one over the link that break makes.
  method SendOver(server: RpcServer, k: Cipher, nonce: seq<byte>, request: Request, room: nat, fault: IoKind, a: Accepted, ioText: string)
    returns (r: Spec.Answer)
    requires server.Valid() && Sound(k) && |nonce| == NONCE_LEN && |a.nonce| == NONCE_LEN
    modifies server.disk
    ensures server.Valid()
    ensures (server.disk.fs, r) ==
            Spec.Send(server.Exported(), old(server.disk.fs), request, a.env,
                      WireLink(server.Exported(), old(server.disk.fs), k, nonce, request, room, fault, a, ioText))
  {
    hide Served, Dispatch, Parse, Frame, Sound, Carried;
    ghost var ex, fs := server.Exported(), server.disk.fs;
    var up := new Pipe(room, fault);
    var down := new Pipe(a.room, KConnectionReset);
    r := Err(Spec.Transport(fault, ioText));
    var written := up.WriteAll([CONNECTION_DATA]);
    if written.Ok? {
      assert up.bytes == [CONNECTION_DATA];
      written := WriteMessage(up, k, REQUESTS, nonce, request);
    }
    SentBytes(k, nonce, request, room);
    assert up.bytes == Sent(k, nonce, request, room);
    HandleConnection(server, k, up, down, a.nonce, a.env, a.text);
    if written.Err? {
      return Err(Spec.Transport(written.error, ioText));
    }
    ReplyArrives(k, a.nonce, OnWire(Dispatch(ex, fs, request, a.env).1, a.text), a.room);
    var message := ReadMessage(down, k, RESULTS);
    r := AnswerOf(message, ioText);
  }

  // What the client gets onto the wire.
  function Sent(k: Cipher, nonce: seq<byte>, request: Request, room: nat): seq<byte> {
    if room == 0 then [] else [CONNECTION_DATA] + Through(FrameOrNothing(k, REQUESTS, nonce, request), room - 1)
  }

  // The server finds the request in it exactly when all of it got through.
  lemma SentBytes(k: Cipher, nonce: seq<byte>, request: Request, room: nat)
    requires Sound(k) && |nonce| == NONCE_LEN
    ensures var frame := Frame(k, REQUESTS, nonce, request);
            Carried(k, Sent(k, nonce, request, room)) == if frame.Ok? && 1 + |frame.value| <= room then Some(request) else None
  {
    hide Sound, Frame, Parse;
    var frame := Frame(k, REQUESTS, nonce, request);
    var sent := Sent(k, nonce, request, room);
    if frame.Ok? && 1 + |frame.value| <= room {
      RequestArrives(k, nonce, request);
    } else if room > 0 {
      assert sent[1..] == Through(FrameOrNothing(k, REQUESTS, nonce, request), room - 1);
      if frame.Ok? {
        CutFrameIsError(k, REQUESTS, nonce, request, room - 1);
      } else {
        EmptyIsError(k);
      }
    }
  }

  lemma EmptyIsError(k: Cipher)
    ensures Parse(k, REQUESTS, []) == (Err(KUnexpectedEof), [])
  {
  }

  lemma RequestArrives(k: Cipher, nonce: seq<byte>, request: Request)
    requires Sound(k) && |nonce| == NONCE_LEN && Frame(k, REQUESTS, nonce, request).Ok?
    ensures Carried(k, [CONNECTION_DATA] + Frame(k, REQUESTS, nonce, request).value) == Some(request)
  {
    hide Sound, Frame, Parse;
    var frame := Frame(k, REQUESTS, nonce, request).value;
    CodecsInvert();
    FrameRoundTrip(k, REQUESTS, nonce, request, []);
    assert ([CONNECTION_DATA] + frame)[1..] == frame && frame + [] == frame;
  }

  lemma ReplyArrives(k: Cipher, nonce: seq<byte>, result: RpcResult, room: nat)
    requires Sound(k) && |nonce| == NONCE_LEN
    ensures var frame := Frame(k, RESULTS, nonce, result);
            Parse(k, RESULTS, Through(FrameOrNothing(k, RESULTS, nonce, result), room)).0
            == if frame.Ok? && |frame.value| <= room then Ok(result) else Err(KUnexpectedEof)
  {
    hide Sound, Frame;
    if Frame(k, RESULTS, nonce, result).Ok? {
      var frame := Frame(k, RESULTS, nonce, result).value;
      if |frame| <= room {
        CodecsInvert();
        FrameRoundTrip(k, RESULTS, nonce, result, []);
        assert frame + [] == frame;
      } else {
        CutFrameIsError(k, RESULTS, nonce, result, room);
      }
    }
  }

  // ---- A reply too long for a frame ----

  lemma VarintLength(n: nat)
    requires n < TWO_32
    ensures |EncodeVarint(n)| <= 5
    ensures n >= 0x1000_0000 ==> |EncodeVarint(n)| == 5
  {
    assert n / 128 / 128 / 128 / 128 < 16;
    assert |EncodeVarint(n / 128 / 128 / 128 / 128)| == 1;
    assert |EncodeVarint(n / 128 / 128)| <= 3;
    assert n >= 0x1000_0000 ==> n / 128 / 128 / 128 >= 128 && |EncodeVarint(n / 128 / 128)| == 3;
  }

  // On a connection that holds, a read's data comes back exactly when it is shorter than 4 GiB less
  // 35 bytes; otherwise the server closes the connection without a reply, and the client sees a
  // stream that ended early.
  lemma LongDataIsLost(ex: Export, fs: Fs, k: Cipher, nonce: seq<byte>, request: Request, room: nat, fault: IoKind, a: Accepted, ioText: string, data: seq<byte>)
    requires Served(ex.root, fs) && Sound(k) && |nonce| == NONCE_LEN && |a.nonce| == NONCE_LEN
    requires Frame(k, REQUESTS, nonce, request).Ok? && room > |Frame(k, REQUESTS, nonce, request).value| && a.room >= TWO_32 + 4
    requires Dispatch(ex, fs, request, a.env).1 == Ok(Data(data))
    ensures WireLink(ex, fs, k, nonce, request, room, fault, a, ioText) == Spec.Up <==> |data| < TWO_32 - 35
    ensures |data| >= TWO_32 - 35 ==>
              WireLink(ex, fs, k, nonce, request, room, fault, a, ioText) == Spec.LostAfter(KUnexpectedEof, ioText)
  {
    hide Served, Dispatch, Sound, Frame;
    DataLength(data);
    FrameExists(k, RESULTS, a.nonce, OnWire(Ok(Data(data)), a.text));
    if |data| < TWO_32 {
      VarintLength(|data|);
    }
  }

  lemma DataLength(data: seq<byte>)
    ensures |EncodeResult(Ok(Data(data)))| == 2 + |EncodeVarint(|data|)| + |data|
  {
    var inner := VEnum(2, VBytes(data));
    assert |Encode(inner)| == 1 + |EncodeVarint(|data|)| + |data| by {
      assert Encode(VBytes(data)) == EncodeVarint(|data|) + data;
    }
    assert ResultVal(Ok(Data(data))) == VEnum(0, inner);
  }
}
